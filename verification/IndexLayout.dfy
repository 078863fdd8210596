/** The regions of a save slot (uds/indexLayout.c): how a slot is divided among the parts
    of a save, and how the division is written to a table and read back. */
module IndexLayout {
  import opened Numbers
  import opened DeltaCode
  import opened SaveSlots
  import opened UdsStatus

  datatype Kind = Scratch | Header | PageMapKind | MasterIndexKind | OpenChapterKind

  const SOLE_INSTANCE := 65535

  datatype Region = Region(start: nat, blocks: nat, kind: Kind, instance: nat)

  /** The parts of a save. The open chapter is there only in a full save. */
  datatype Parts = Parts(saveType: SaveType, header: Region, pageMap: Region, zones: seq<Region>,
    openChapter: Option<Region>, freeSpace: Region)

  function Chapter(p: Parts): seq<Region> {
    if p.openChapter.Some? then [p.openChapter.value] else []
  }

  /** The parts but the free space. */
  function Used(p: Parts): seq<Region> {
    [p.header, p.pageMap] + p.zones + Chapter(p)
  }

  /** The table of the regions, in which free space of no size is left out. */
  function TableOf(p: Parts): seq<Region> {
    Used(p) + if p.freeSpace.blocks > 0 then [p.freeSpace] else []
  }

  /** Regions that follow one another without gaps, up to an end. */
  predicate Tiles(regions: seq<Region>, start: nat, end: nat) {
    if regions == [] then start == end
    else regions[0].start == start && Tiles(regions[1..], start + regions[0].blocks, end)
  }

  /** The regions are of the right kinds. */
  ghost predicate IsLayout(p: Parts) {
    && p.header.kind == Header && p.header.instance == SOLE_INSTANCE && p.header.blocks == 1
    && p.pageMap.kind == PageMapKind && p.pageMap.instance == SOLE_INSTANCE
    && (forall z :: 0 <= z < |p.zones| ==> p.zones[z].kind == MasterIndexKind && p.zones[z].instance == z)
    && (p.openChapter.Some? <==> p.saveType == FullSave)
    && (p.openChapter.Some? ==>
          p.openChapter.value.kind == OpenChapterKind && p.openChapter.value.instance == SOLE_INSTANCE)
    && p.freeSpace.kind == Scratch && p.freeSpace.instance == SOLE_INSTANCE
  }

  lemma {:induction false} TilesConcat(a: seq<Region>, b: seq<Region>, start: nat, middle: nat, end: nat)
    requires Tiles(a, start, middle)
    ensures Tiles(a + b, start, end) <==> Tiles(b, middle, end)
    decreases |a|
  {
    if a == [] {
      assert a + b == b;
    } else {
      TilesConcat(a[1..], b, start + a[0].blocks, middle, end);
      assert (a + b)[1..] == a[1..] + b;
    }
  }

  /** Where a tiling has come to. */
  lemma {:induction false} TilesSplit(a: seq<Region>, b: seq<Region>, start: nat, end: nat) returns (middle: nat)
    requires Tiles(a + b, start, end)
    ensures Tiles(a, start, middle) && Tiles(b, middle, end)
    decreases |a|
  {
    if a == [] {
      assert a + b == b;
      return start;
    }
    assert (a + b)[1..] == a[1..] + b;
    middle := TilesSplit(a[1..], b, start + a[0].blocks, end);
  }

  class SaveLayout {
    const start: nat
    const blocks: nat
    var parts: Parts

    constructor (start: nat, blocks: nat, parts: Parts)
      ensures this.start == start && this.blocks == blocks && this.parts == parts
    {
      this.start, this.blocks, this.parts := start, blocks, parts;
    }

    /** Divide the slot for a save with a number of zones. The regions tile the slot,
        whatever the number of zones, and every zone has the same size. */
    method Populate(pageMapBlocks: nat, openChapterBlocks: nat, numZones: nat, saveType: SaveType)
      requires 1 + pageMapBlocks + openChapterBlocks <= blocks && numZones <= SOLE_INSTANCE
      modifies this
      ensures IsLayout(parts) && parts.saveType == saveType && |parts.zones| == numZones
      ensures Tiles(Used(parts) + [parts.freeSpace], start, start + blocks)
      ensures parts.pageMap.blocks == pageMapBlocks &&
        (parts.openChapter.Some? ==> parts.openChapter.value.blocks == openChapterBlocks)
      ensures forall z :: 0 <= z < numZones ==>
        parts.zones[z].blocks == (blocks - 1 - pageMapBlocks - openChapterBlocks) / numZones
    {
      hide Tiles;
      var header := Region(start, 1, Header, SOLE_INSTANCE);
      var pageMap := Region(start + 1, pageMapBlocks, PageMapKind, SOLE_INSTANCE);
      var nextBlock := start + 1 + pageMapBlocks;
      ghost var front := [header, pageMap];
      FrontTiles(header, pageMap);
      var zones: seq<Region> := [];
      if numZones > 0 {
        var avail := blocks - (nextBlock - start) - openChapterBlocks;
        zones := PlaceZones(nextBlock, avail / numZones, numZones);
        ZonesHaveRoom(avail, numZones);
        TilesConcat(front, zones, start, nextBlock, nextBlock + numZones * (avail / numZones));
        nextBlock := nextBlock + numZones * (avail / numZones);
      }
      assert Tiles(front + zones, start, nextBlock) by { assert front + [] == front; }
      var openChapter := None;
      if saveType == FullSave {
        openChapter := Some(Region(nextBlock, openChapterBlocks, OpenChapterKind, SOLE_INSTANCE));
        OneMore(front + zones, openChapter.value, start, nextBlock);
        nextBlock := nextBlock + openChapterBlocks;
      }
      var freeSpace := Region(nextBlock, blocks - (nextBlock - start), Scratch, SOLE_INSTANCE);
      parts := Parts(saveType, header, pageMap, zones, openChapter, freeSpace);
      assert front + zones + [] == front + zones;
      OneMore(Used(parts), freeSpace, start, nextBlock);
    }

    /** Find the parts of a save from its table. This succeeds exactly for the tables
        of some parts, and gives those parts. */
    method Reconstruct(table: seq<Region>, saveType: SaveType, pageMapBlocks: nat, openChapterBlocks: nat,
        ghost p: Parts) returns (status: Status)
      requires 1 + pageMapBlocks + openChapterBlocks <= blocks && start + blocks < UINT64_RANGE
      modifies this
      ensures IsEmptyTable(table) ==>
        status.Success? && parts.zones == [] && Tiles(Used(parts) + [parts.freeSpace], start, start + blocks)
      ensures !IsEmptyTable(table) && status.Success? ==> IsTable(parts, table, saveType, start, start + blocks)
      ensures !IsEmptyTable(table) && IsTable(p, table, saveType, start, start + blocks) ==>
        status.Success? && parts == p
    {
      hide Tiles, Follow, IsTable, IsLayout, Used, Chapter, AreZones, Walked, Fits, Wrap, Taken;
      if IsEmptyTable(table) {
        Populate(pageMapBlocks, openChapterBlocks, 0, NoSave);
        parts := parts.(saveType := saveType);
        SameRegions(parts, NoSave);
        return Success;
      }
      ghost var end, last := start + blocks, if table == Used(p) then p.freeSpace.start else start + blocks;
      ghost var good := IsTable(p, table, saveType, start, end);
      if good {
        TableParts(p, table, saveType, start, end);
      }
      var iter := new RegionIterator(table, 0, start, true);
      NoneWalked(table, start);
      var header, pageMap, zones, openChapter := TakeParts(iter, saveType, start, last, p, end);
      if iter.ok {
        TakenNext(table, saveType, header, pageMap, zones, openChapter, iter.next);
      }
      var free := Take(iter, false, 0, Scratch, SOLE_INSTANCE, start, last);
      var at := iter.nextBlock;
      if iter.ok && iter.next == |table| {
        WalkedAll(table, start, at);
        if good {
          NextStarts(table, |table|, start, at, last);
        }
      }
      WrapBack(at, start + blocks);
      EmptyScratch(at, Wrap(start + blocks - at));
      var freeSpace := if free.Some? then free.value else Region(at, Wrap(start + blocks - at), Scratch, SOLE_INSTANCE);
      if free.None? {
        iter.nextBlock := Wrap(freeSpace.start + freeSpace.blocks);
      }
      if !iter.ok || iter.next != |table| || iter.nextBlock != start + blocks {
        return UnexpectedResult;
      }
      TakenParts(table, saveType, header, pageMap, zones, openChapter, freeSpace, free.Some?, start, end, at);
      parts := Parts(saveType, header.value, pageMap.value, zones, openChapter, freeSpace);
      return Success;
    }
  }

  /** The table of a slot that has never been saved to. */
  predicate IsEmptyTable(table: seq<Region>) {
    |table| == 0 || (|table| == 1 && table[0].kind == Scratch)
  }

  /** Regions of equal size for the zones of the master index. */
  method PlaceZones(start: nat, size: nat, numZones: nat) returns (zones: seq<Region>)
    ensures |zones| == numZones && Tiles(zones, start, start + numZones * size)
    ensures forall z :: 0 <= z < numZones ==>
      zones[z].kind == MasterIndexKind && zones[z].instance == z && zones[z].blocks == size
  {
    hide Tiles;
    zones := [];
    NoTiles(start);
    var nextBlock := start;
    for z := 0 to numZones
      invariant |zones| == z && nextBlock == start + z * size && Tiles(zones, start, nextBlock)
      invariant forall i :: 0 <= i < z ==>
        zones[i].kind == MasterIndexKind && zones[i].instance == i && zones[i].blocks == size
    {
      var region := Region(nextBlock, size, MasterIndexKind, z);
      OneMore(zones, region, start, nextBlock);
      zones := zones + [region];
      nextBlock := nextBlock + size;
      assert (z + 1) * size == z * size + size;
    }
  }

  lemma NoTiles(start: nat)
    ensures Tiles([], start, start)
  {
  }

  lemma FrontTiles(header: Region, pageMap: Region)
    requires pageMap.start == header.start + header.blocks
    ensures Tiles([header, pageMap], header.start, pageMap.start + pageMap.blocks)
  {
    assert [header, pageMap][1..] == [pageMap] && [pageMap][1..] == [];
  }

  lemma ZonesHaveRoom(avail: nat, numZones: nat)
    requires numZones > 0
    ensures numZones * (avail / numZones) <= avail
  {
    DivMod(avail, numZones);
  }

  lemma OneMore(a: seq<Region>, r: Region, start: nat, end: nat)
    requires Tiles(a, start, end) && r.start == end
    ensures Tiles(a + [r], start, end + r.blocks)
  {
    TilesConcat(a, [r], start, end, end + r.blocks);
    assert [r][1..] == [];
  }

  // ----- The table -----

  /** The table of the regions of a save. */
  method MakeTable(p: Parts) returns (table: seq<Region>)
    ensures table == TableOf(p)
  {
    table := [p.header, p.pageMap];
    for z := 0 to |p.zones|
      invariant table == [p.header, p.pageMap] + p.zones[..z]
    {
      table := table + [p.zones[z]];
    }
    if p.openChapter.Some? {
      table := table + [p.openChapter.value];
    }
    if p.freeSpace.blocks > 0 {
      table := table + [p.freeSpace];
    }
  }

  /** Block numbers are 64-bit. */
  function Wrap(x: int): nat {
    x % UINT64_RANGE
  }

  /** Regions that follow one another in 64-bit arithmetic. */
  ghost predicate Follow(regions: seq<Region>, start: nat, end: nat) {
    if regions == [] then start == end
    else regions[0].start == start && Follow(regions[1..], Wrap(start + regions[0].blocks), end)
  }

  lemma {:induction false} FollowConcat(a: seq<Region>, b: seq<Region>, start: nat, middle: nat, end: nat)
    requires Follow(a, start, middle)
    ensures Follow(a + b, start, end) <==> Follow(b, middle, end)
    decreases |a|
  {
    if a == [] {
      assert a + b == b;
    } else {
      FollowConcat(a[1..], b, Wrap(start + a[0].blocks), middle, end);
      assert (a + b)[1..] == a[1..] + b;
    }
  }

  lemma {:induction false} TilesFollow(a: seq<Region>, start: nat, end: nat)
    requires Tiles(a, start, end) && end < UINT64_RANGE
    ensures Follow(a, start, end)
    decreases |a|
  {
    if a != [] {
      TilesEnd(a[1..], start + a[0].blocks, end);
      TilesFollow(a[1..], start + a[0].blocks, end);
    }
  }

  lemma {:induction false} TilesEnd(a: seq<Region>, start: nat, end: nat)
    requires Tiles(a, start, end)
    ensures start <= end
    decreases |a|
  {
    if a != [] {
      TilesEnd(a[1..], start + a[0].blocks, end);
    }
  }

  /** The tables that are read back as the parts: the free space is there and ends with
      the slot, or it is not and is what is left of the slot. */
  ghost predicate IsTable(p: Parts, table: seq<Region>, saveType: SaveType, start: nat, end: nat) {
    && IsLayout(p) && p.saveType == saveType
    && (|| (table == Used(p) + [p.freeSpace] && Follow(table, start, end))
        || (table == Used(p) && Follow(table, start, p.freeSpace.start) &&
              p.freeSpace.blocks == Wrap(end - p.freeSpace.start)))
  }

  /** The table of a slot that was divided by Populate is one of those. */
  lemma PopulatedIsTable(p: Parts, start: nat, end: nat)
    requires IsLayout(p) && Tiles(Used(p) + [p.freeSpace], start, end) && end < UINT64_RANGE
    ensures IsTable(p, TableOf(p), p.saveType, start, end)
  {
    hide Tiles, Follow, Used;
    TilesFollow(Used(p) + [p.freeSpace], start, end);
    if p.freeSpace.blocks == 0 {
      var middle := TilesSplit(Used(p), [p.freeSpace], start, end);
      OneTile(p.freeSpace, middle, end);
      TilesFollow(Used(p), start, middle);
      assert TableOf(p) == Used(p);
    }
  }

  /** A table without free space is also read back when its regions do not fit into the
      slot: the size of the free space is then negative and wraps around. */
  lemma OverfullIsTable()
    ensures var header := Region(0, 1, Header, SOLE_INSTANCE);
      var pageMap := Region(1, 9, PageMapKind, SOLE_INSTANCE);
      var freeSpace := Region(10, UINT64_RANGE - 6, Scratch, SOLE_INSTANCE);
      var p := Parts(Checkpoint, header, pageMap, [], None, freeSpace);
      IsTable(p, Used(p), Checkpoint, 0, 4) && !Tiles(Used(p) + [p.freeSpace], 0, 4)
  {
    var a, b := Region(0, 1, Header, SOLE_INSTANCE), Region(1, 9, PageMapKind, SOLE_INSTANCE);
    var c := Region(10, UINT64_RANGE - 6, Scratch, SOLE_INSTANCE);
    OneFollows(a, 0, 1);
    OneFollows(b, 1, 10);
    FollowConcat([a], [b], 0, 1, 10);
    assert [a] + [b] == [a, b];
    assert [a, b, c][1..] == [b, c] && [b, c][1..] == [c] && [c][1..] == [];
    assert !Tiles([c], 10, 4) && !Tiles([b, c], 1, 4);
  }

  function TotalBlocks(regions: seq<Region>): nat {
    if regions == [] then 0 else regions[0].blocks + TotalBlocks(regions[1..])
  }

  /** Regions that follow one another without wrapping around are tiles. */
  lemma {:induction false} FollowTiles(a: seq<Region>, start: nat, end: nat)
    requires Follow(a, start, end) && start + TotalBlocks(a) < UINT64_RANGE
    ensures Tiles(a, start, start + TotalBlocks(a)) && end == start + TotalBlocks(a)
    decreases |a|
  {
    if a != [] {
      FollowTiles(a[1..], start + a[0].blocks, end);
    }
  }

  lemma {:induction false} TilesTotal(a: seq<Region>, start: nat, end: nat)
    requires Tiles(a, start, end)
    ensures end == start + TotalBlocks(a)
    decreases |a|
  {
    if a != [] {
      TilesTotal(a[1..], start + a[0].blocks, end);
    }
  }

  /** What is read back from a table tiles the slot if and only if the other regions
      together fit into it. */
  lemma TableTiles(p: Parts, table: seq<Region>, saveType: SaveType, start: nat, end: nat)
    requires IsTable(p, table, saveType, start, end) && end < UINT64_RANGE && p.freeSpace.blocks < UINT64_RANGE
    ensures Tiles(Used(p) + [p.freeSpace], start, end) <==> start + TotalBlocks(Used(p)) <= end
  {
    hide Tiles, Used, Follow;
    var used := start + TotalBlocks(Used(p));
    if Tiles(Used(p) + [p.freeSpace], start, end) {
      var middle := TilesSplit(Used(p), [p.freeSpace], start, end);
      TilesTotal(Used(p), start, middle);
      TilesEnd([p.freeSpace], middle, end);
    }
    if used <= end {
      FittingTiles(p, table, saveType, start, end);
    }
  }

  lemma FittingTiles(p: Parts, table: seq<Region>, saveType: SaveType, start: nat, end: nat)
    requires IsTable(p, table, saveType, start, end) && end < UINT64_RANGE && p.freeSpace.blocks < UINT64_RANGE
    requires start + TotalBlocks(Used(p)) <= end
    ensures Tiles(Used(p) + [p.freeSpace], start, end)
  {
    hide Tiles, Used, Follow;
    var used := start + TotalBlocks(Used(p));
    if table == Used(p) + [p.freeSpace] {
      var middle := FollowSplit(Used(p), [p.freeSpace], start, end);
      FollowTiles(Used(p), start, middle);
      OneFollows(p.freeSpace, used, end);
    } else {
      FollowTiles(Used(p), start, p.freeSpace.start);
    }
    TilesConcat(Used(p), [p.freeSpace], start, used, end);
    OneTile(p.freeSpace, used, end);
  }

  lemma {:induction false} FollowSplit(a: seq<Region>, b: seq<Region>, start: nat, end: nat) returns (middle: nat)
    requires Follow(a + b, start, end)
    ensures Follow(a, start, middle) && Follow(b, middle, end)
    decreases |a|
  {
    if a == [] {
      assert a + b == b;
      return start;
    }
    assert (a + b)[1..] == a[1..] + b;
    middle := FollowSplit(a[1..], b, Wrap(start + a[0].blocks), end);
  }

  lemma OneTile(r: Region, start: nat, end: nat)
    ensures Tiles([r], start, end) <==> r.start == start && start + r.blocks == end
  {
    assert [r][1..] == [];
  }

  lemma OneFollows(r: Region, start: nat, end: nat)
    ensures Follow([r], start, end) <==> r.start == start && Wrap(start + r.blocks) == end
  {
    assert [r][1..] == [];
  }

  // ----- Reading a table back -----

  /** A walk along a table. */
  class RegionIterator {
    const regions: seq<Region>
    var next: nat
    var nextBlock: nat
    var ok: bool

    constructor (regions: seq<Region>, next: nat, nextBlock: nat, ok: bool)
      ensures this.regions == regions && this.next == next && this.nextBlock == nextBlock && this.ok == ok
    {
      this.regions, this.next, this.nextBlock, this.ok := regions, next, nextBlock, ok;
    }

    /** The next region is the one expected. */
    predicate Matches(blocks: nat, kind: Kind, instance: nat)
      reads this
    {
      && next < |regions| && regions[next].start == nextBlock && regions[next].kind == kind
      && regions[next].instance == instance && (blocks > 0 ==> regions[next].blocks == blocks)
    }

    /** There is no next region of this kind, and nothing else is wrong with it. */
    predicate IsOver(kind: Kind)
      reads this
    {
      next >= |regions| || (regions[next].start == nextBlock && regions[next].kind != kind)
    }

    /** Take the next region if it is the one expected. If not, that is an error, unless
        the region was not required and there is none of its kind. */
    method Expect(required: bool, blocks: nat, kind: Kind, instance: nat) returns (region: Option<Region>)
      modifies this
      ensures region.Some? <==> old(ok && Matches(blocks, kind, instance))
      ensures region.Some? ==>
        && ok && next == old(next) + 1 && region.value == regions[old(next)]
        && nextBlock == Wrap(old(nextBlock) + region.value.blocks)
      ensures region.None? ==>
        next == old(next) && nextBlock == old(nextBlock) && ok == old(ok && !required && IsOver(kind))
    {
      region := None;
      if !ok {
        return;
      }
      if next >= |regions| {
        ok := !required;
        return;
      }
      if regions[next].start != nextBlock {
        ok := false;
        return;
      }
      if regions[next].kind != kind {
        ok := !required;
        return;
      }
      if regions[next].instance != instance || (blocks > 0 && regions[next].blocks != blocks) {
        ok := false;
        return;
      }
      region := Some(regions[next]);
      nextBlock := Wrap(nextBlock + regions[next].blocks);
      next := next + 1;
    }
  }

  /** Regions of the master index, numbered from zero. */
  ghost predicate AreZones(zones: seq<Region>) {
    forall z :: 0 <= z < |zones| ==> zones[z].kind == MasterIndexKind && zones[z].instance == z
  }

  /** How many regions of the master index come next. */
  method CountZones(iter: RegionIterator) returns (n: nat, ghost end: nat)
    requires iter.next <= |iter.regions|
    ensures iter.next + n <= |iter.regions|
    ensures iter.ok ==>
      && AreZones(iter.regions[iter.next..iter.next + n])
      && Follow(iter.regions[iter.next..iter.next + n], iter.nextBlock, end)
      && !IsZone(iter.regions, iter.next + n, end, n)
  {
    hide Follow;
    var tmp := new RegionIterator(iter.regions, iter.next, iter.nextBlock, iter.ok);
    n := 0;
    NoneFollow(iter.nextBlock);
    assert iter.regions[iter.next..iter.next] == [];
    var more := true;
    while more
      invariant fresh(tmp) && tmp.regions == iter.regions && tmp.next == iter.next + n <= |iter.regions|
      invariant tmp.ok ==> iter.ok
      invariant iter.ok ==>
        AreZones(iter.regions[iter.next..iter.next + n]) &&
        Follow(iter.regions[iter.next..iter.next + n], iter.nextBlock, tmp.nextBlock)
      invariant more ==> tmp.ok == iter.ok
      invariant iter.ok && !more ==> !IsZone(iter.regions, tmp.next, tmp.nextBlock, n)
      decreases more, |iter.regions| - tmp.next
    {
      ghost var from, at := tmp.next, tmp.nextBlock;
      var region := tmp.Expect(false, 0, MasterIndexKind, n);
      more := region.Some?;
      if more {
        FollowMore(iter.regions, iter.next, from, iter.nextBlock, at);
        assert iter.regions[iter.next..from + 1] == iter.regions[iter.next..from] + [iter.regions[from]];
        n := n + 1;
      }
    }
    end := tmp.nextBlock;
  }

  /** The region is the next one of the master index. */
  ghost predicate IsZone(regions: seq<Region>, next: nat, nextBlock: nat, n: nat) {
    next < |regions| && regions[next].start == nextBlock && regions[next].kind == MasterIndexKind &&
      regions[next].instance == n
  }

  lemma NoneFollow(start: nat)
    ensures Follow([], start, start)
  {
  }

  lemma FollowMore(regions: seq<Region>, from: nat, to: nat, start: nat, end: nat)
    requires from <= to < |regions| && Follow(regions[from..to], start, end) && regions[to].start == end
    ensures Follow(regions[from..to + 1], start, Wrap(end + regions[to].blocks))
  {
    FollowConcat(regions[from..to], [regions[to]], start, end, Wrap(end + regions[to].blocks));
    OneFollows(regions[to], end, Wrap(end + regions[to].blocks));
    assert regions[from..to + 1] == regions[from..to] + [regions[to]];
  }

  /** The regions of the master index are where the table has them, so the count is
      that of the parts. */
  lemma CountIsRight(p: Parts, table: seq<Region>, saveType: SaveType, start: nat, end: nat, n: nat, at: nat, from: nat)
    requires IsTable(p, table, saveType, start, end) && 2 + n <= |table|
    requires AreZones(table[2..2 + n]) && Follow(table[..2], start, from) && Follow(table[2..2 + n], from, at) &&
      !IsZone(table, 2 + n, at, n)
    ensures n == |p.zones|
  {
    hide Follow, IsTable, IsLayout, Used, Fits, Wrap;
    var m := |p.zones|;
    AfterZones(p, table, saveType, start, end);
    TableParts(p, table, saveType, start, end);
    if n > m {
      ZoneKind(table, n, m);
    } else if n < m {
      var last := if table == Used(p) then p.freeSpace.start else end;
      assert table[2 + n] == table[2..2 + m][n];
      ZoneStarts(table, n, start, from, at, last);
    }
  }

  /** The region after some that follow one another starts where they end. */
  lemma ZoneStarts(table: seq<Region>, n: nat, start: nat, from: nat, at: nat, last: nat)
    requires 2 + n < |table| && Follow(table, start, last) && Follow(table[..2], start, from) &&
      Follow(table[2..2 + n], from, at)
    ensures table[2 + n].start == at
  {
    hide Follow;
    var rest := table[2 + n..];
    assert table == table[..2] + (table[2..2 + n] + rest);
    FollowConcat(table[..2], table[2..2 + n] + rest, start, from, last);
    FollowConcat(table[2..2 + n], rest, from, at, last);
    FirstFollows(rest, at, last);
  }

  lemma ZoneKind(table: seq<Region>, n: nat, z: nat)
    requires 2 + n <= |table| && AreZones(table[2..2 + n]) && z < n
    ensures table[2 + z].kind == MasterIndexKind
  {
    assert table[2 + z] == table[2..2 + n][z];
  }

  lemma AfterZones(p: Parts, table: seq<Region>, saveType: SaveType, start: nat, end: nat)
    requires IsTable(p, table, saveType, start, end)
    ensures 2 + |p.zones| < |table| ==> table[2 + |p.zones|].kind != MasterIndexKind
  {
    if 2 + |p.zones| < |table| {
      assert table[2 + |p.zones|] == (Chapter(p) + [p.freeSpace])[0];
    }
  }

  lemma FirstFollows(a: seq<Region>, start: nat, end: nat)
    requires a != [] && Follow(a, start, end)
    ensures a[0].start == start
  {
  }

  /** The regions walked along follow one another. */
  ghost predicate Walked(regions: seq<Region>, next: nat, start: nat, nextBlock: nat) {
    next <= |regions| && Follow(regions[..next], start, nextBlock)
  }

  lemma WalkedAll(regions: seq<Region>, start: nat, nextBlock: nat)
    requires Walked(regions, |regions|, start, nextBlock)
    ensures Follow(regions, start, nextBlock)
  {
    assert regions[..|regions|] == regions;
  }

  lemma NoneWalked(regions: seq<Region>, start: nat)
    ensures Walked(regions, 0, start, start)
  {
  }

  lemma NextStarts(regions: seq<Region>, next: nat, start: nat, nextBlock: nat, last: nat)
    requires Walked(regions, next, start, nextBlock) && Follow(regions, start, last)
    ensures next < |regions| ==> regions[next].start == nextBlock
    ensures next == |regions| ==> nextBlock == last
  {
    hide Follow;
    assert regions == regions[..next] + regions[next..];
    FollowConcat(regions[..next], regions[next..], start, nextBlock, last);
    if next < |regions| {
      FirstFollows(regions[next..], nextBlock, last);
    } else {
      NothingFollows(nextBlock, last);
    }
  }

  lemma NothingFollows(start: nat, end: nat)
    requires Follow([], start, end)
    ensures start == end
  {
  }

  /** Take a region from a table. If the regions of the table follow one another, only
      the kind, the instance and the size of the region matter. */
  method Take(iter: RegionIterator, required: bool, blocks: nat, kind: Kind, instance: nat, ghost start: nat,
      ghost last: nat) returns (region: Option<Region>)
    requires iter.ok ==> Walked(iter.regions, iter.next, start, iter.nextBlock)
    modifies iter
    ensures iter.ok ==> Walked(iter.regions, iter.next, start, iter.nextBlock)
    ensures region.Some? ==>
      && old(iter.ok) && iter.ok && old(iter.next) < |iter.regions| && iter.next == old(iter.next) + 1
      && region.value == iter.regions[old(iter.next)]
      && Fits(region.value, blocks, kind, instance)
    ensures region.None? ==>
      iter.next == old(iter.next) && iter.nextBlock == old(iter.nextBlock) && (required ==> !iter.ok)
    ensures iter.ok ==> old(iter.ok)
    ensures old(iter.ok) && Follow(iter.regions, start, last) ==>
      && (old(iter.next) < |iter.regions| ==> iter.regions[old(iter.next)].start == old(iter.nextBlock))
      && (old(iter.next) < |iter.regions| && Fits(iter.regions[old(iter.next)], blocks, kind, instance) ==>
            region.Some?)
      && (!required && (old(iter.next) == |iter.regions| || iter.regions[old(iter.next)].kind != kind) ==> iter.ok)
  {
    hide Follow;
    ghost var next, nextBlock := iter.next, iter.nextBlock;
    if iter.ok && Follow(iter.regions, start, last) {
      NextStarts(iter.regions, next, start, nextBlock, last);
    }
    region := iter.Expect(required, blocks, kind, instance);
    if region.Some? {
      FollowMore(iter.regions, 0, next, start, nextBlock);
      assert iter.regions[0..next] == iter.regions[..next] && iter.regions[0..next + 1] == iter.regions[..next + 1];
    }
  }

  predicate Fits(r: Region, blocks: nat, kind: Kind, instance: nat) {
    r.kind == kind && r.instance == instance && (blocks > 0 ==> r.blocks == blocks)
  }

  lemma WrapBack(at: nat, end: nat)
    requires end < UINT64_RANGE
    ensures Wrap(at + Wrap(end - at)) == end
  {
  }

  lemma EmptyScratch(at: nat, blocks: nat)
    ensures Fits(Region(at, blocks, Scratch, SOLE_INSTANCE), 0, Scratch, SOLE_INSTANCE)
  {
  }

  lemma SameRegions(p: Parts, saveType: SaveType)
    ensures Used(p.(saveType := saveType)) == Used(p)
  {
  }

  /** Where the parts are in their table. */
  lemma TableParts(p: Parts, table: seq<Region>, saveType: SaveType, start: nat, end: nat)
    requires IsTable(p, table, saveType, start, end)
    ensures var m := 2 + |p.zones|;
      && |table| >= m && table[0] == p.header && table[1] == p.pageMap && table[2..m] == p.zones && AreZones(p.zones)
      && Fits(p.header, 1, Header, SOLE_INSTANCE) && Fits(p.pageMap, 0, PageMapKind, SOLE_INSTANCE)
      && p.saveType == saveType && (p.openChapter.Some? <==> saveType == FullSave)
      && (p.openChapter.Some? ==>
            |table| > m && table[m] == p.openChapter.value && Fits(table[m], 0, OpenChapterKind, SOLE_INSTANCE))
      && var k := if p.openChapter.Some? then m + 1 else m;
      && Follow(table, start, if table == Used(p) then p.freeSpace.start else end)
      && (if table == Used(p) then |table| == k &&
            p.freeSpace == Region(p.freeSpace.start, Wrap(end - p.freeSpace.start), Scratch, SOLE_INSTANCE)
          else |table| == k + 1 && table[k] == p.freeSpace && Fits(p.freeSpace, 0, Scratch, SOLE_INSTANCE))
  {
    hide Follow;
  }

  /** Parts found in a table have that table. */
  lemma PartsAreTable(p: Parts, table: seq<Region>, start: nat, end: nat, at: nat, hasFree: bool)
    requires Fits(p.header, 1, Header, SOLE_INSTANCE) && Fits(p.pageMap, 0, PageMapKind, SOLE_INSTANCE) &&
      AreZones(p.zones)
    requires p.openChapter.Some? <==> p.saveType == FullSave
    requires p.openChapter.Some? ==> Fits(p.openChapter.value, 0, OpenChapterKind, SOLE_INSTANCE)
    requires Fits(p.freeSpace, 0, Scratch, SOLE_INSTANCE)
    requires var m := 2 + |p.zones|;
      var k := if p.openChapter.Some? then m + 1 else m;
      && |table| == (if hasFree then k + 1 else k) && table[0] == p.header && table[1] == p.pageMap
      && table[2..m] == p.zones
      && (p.openChapter.Some? ==> table[m] == p.openChapter.value) && (hasFree ==> table[k] == p.freeSpace)
    requires if hasFree then Follow(table, start, end)
      else Follow(table, start, at) && p.freeSpace.start == at && p.freeSpace.blocks == Wrap(end - at)
    ensures IsTable(p, table, p.saveType, start, end)
  {
    hide Follow;
    var m := 2 + |p.zones|;
    assert table == [table[0], table[1]] + table[2..m] + table[m..];
    if hasFree {
      assert table[m..] == Chapter(p) + [p.freeSpace];
      assert table == Used(p) + [p.freeSpace];
    } else {
      assert table[m..] == Chapter(p);
    }
  }

  /** Take the regions of the master index. */
  method TakeZones(iter: RegionIterator, ghost start: nat, ghost last: nat, ghost p: Parts, ghost saveType: SaveType,
      ghost end: nat) returns (zones: seq<Region>)
    requires iter.next <= |iter.regions| &&
      (iter.ok ==> iter.next == 2 && Walked(iter.regions, 2, start, iter.nextBlock))
    modifies iter
    ensures iter.next <= |iter.regions| &&
      (iter.ok ==> old(iter.ok) && Walked(iter.regions, iter.next, start, iter.nextBlock))
    ensures iter.ok ==> iter.next == 2 + |zones| && zones == iter.regions[2..iter.next] && AreZones(zones)
    ensures old(iter.ok) && IsTable(p, iter.regions, saveType, start, end) && Follow(iter.regions, start, last) ==>
      iter.ok && zones == p.zones
  {
    hide Follow, IsTable;
    var n, at := CountZones(iter);
    ghost var good := iter.ok && IsTable(p, iter.regions, saveType, start, end) && Follow(iter.regions, start, last);
    if good {
      CountIsRight(p, iter.regions, saveType, start, end, n, at, iter.nextBlock);
      TableParts(p, iter.regions, saveType, start, end);
    }
    zones := [];
    for z := 0 to n
      invariant iter.next <= |iter.regions| &&
        (iter.ok ==> old(iter.ok) && Walked(iter.regions, iter.next, start, iter.nextBlock))
      invariant iter.ok ==> iter.next == 2 + z && zones == iter.regions[2..2 + z] && AreZones(zones)
      invariant good ==> iter.ok
    {
      var region := Take(iter, true, 0, MasterIndexKind, z, start, last);
      if region.Some? {
        zones := zones + [region.value];
      }
    }
  }

  /** The regions taken so far, as parts. */
  ghost predicate Taken(table: seq<Region>, saveType: SaveType, header: Option<Region>, pageMap: Option<Region>,
      zones: seq<Region>, openChapter: Option<Region>, next: nat) {
    && next <= |table| && next == 2 + |zones| + (if openChapter.Some? then 1 else 0)
    && header == Some(table[0]) && Fits(table[0], 1, Header, SOLE_INSTANCE)
    && pageMap == Some(table[1]) && Fits(table[1], 0, PageMapKind, SOLE_INSTANCE)
    && zones == table[2..2 + |zones|] && AreZones(zones) && (openChapter.Some? <==> saveType == FullSave)
    && (openChapter.Some? ==>
          openChapter.value == table[next - 1] && Fits(openChapter.value, 0, OpenChapterKind, SOLE_INSTANCE))
  }

  lemma TakenNext(table: seq<Region>, saveType: SaveType, header: Option<Region>, pageMap: Option<Region>,
      zones: seq<Region>, openChapter: Option<Region>, next: nat)
    requires Taken(table, saveType, header, pageMap, zones, openChapter, next)
    ensures next <= |table| && next == 2 + |zones| + (if openChapter.Some? then 1 else 0)
  {
  }

  /** With the free space, they are the parts of a table. */
  lemma TakenParts(table: seq<Region>, saveType: SaveType, header: Option<Region>, pageMap: Option<Region>,
      zones: seq<Region>, openChapter: Option<Region>, freeSpace: Region, hasFree: bool, start: nat, end: nat, at: nat)
    requires |table| > 0 &&
      Taken(table, saveType, header, pageMap, zones, openChapter, if hasFree then |table| - 1 else |table|)
    requires Fits(freeSpace, 0, Scratch, SOLE_INSTANCE) && (hasFree ==> freeSpace == table[|table| - 1])
    requires if hasFree then Follow(table, start, end)
      else (Follow(table, start, at) && freeSpace.start == at && freeSpace.blocks == Wrap(end - at))
    ensures header.Some? && pageMap.Some?
    ensures IsTable(Parts(saveType, header.value, pageMap.value, zones, openChapter, freeSpace), table, saveType, start,
      end)
  {
    hide Follow, IsTable, AreZones, Fits, Wrap;
    PartsAreTable(Parts(saveType, header.value, pageMap.value, zones, openChapter, freeSpace), table, start, end, at,
      hasFree);
  }

  /** Take all regions but the free space. */
  method TakeParts(iter: RegionIterator, saveType: SaveType, ghost start: nat, ghost last: nat, ghost p: Parts,
      ghost end: nat)
    returns (header: Option<Region>, pageMap: Option<Region>, zones: seq<Region>, openChapter: Option<Region>)
    requires iter.next == 0 && iter.ok && Walked(iter.regions, 0, start, iter.nextBlock)
    requires IsTable(p, iter.regions, saveType, start, end) ==>
      last == if iter.regions == Used(p) then p.freeSpace.start else end
    modifies iter
    ensures iter.ok ==>
      Taken(iter.regions, saveType, header, pageMap, zones, openChapter, iter.next) &&
      Walked(iter.regions, iter.next, start, iter.nextBlock)
    ensures IsTable(p, iter.regions, saveType, start, end) ==>
      iter.ok && header == Some(p.header) && pageMap == Some(p.pageMap) && zones == p.zones &&
        openChapter == p.openChapter
  {
    hide Follow, IsTable, IsLayout, Used, Chapter, AreZones, Walked, Fits, Wrap;
    if IsTable(p, iter.regions, saveType, start, end) {
      TableParts(p, iter.regions, saveType, start, end);
    }
    header := Take(iter, true, 1, Header, SOLE_INSTANCE, start, last);
    pageMap := Take(iter, true, 0, PageMapKind, SOLE_INSTANCE, start, last);
    zones := TakeZones(iter, start, last, p, saveType, end);
    openChapter := None;
    if saveType == FullSave {
      openChapter := Take(iter, true, 0, OpenChapterKind, SOLE_INSTANCE, start, last);
    }
  }
}
