/** Restoring the lists of a saved index into the zones of another. */
module DeltaRestore {
  import opened Bits
  import opened Numbers
  import opened DeltaLayout
  import opened DeltaSave
  import opened DeltaMemory
  import opened ZoneDivision
  import opened SaveHeaders
  import opened SaveFiles
  import opened UdsStatus

  /** A list that has the size of its image, is flagged until its record arrives, and
      then has the bits of its image. */
  ghost predicate IsAwaited(l: DeltaList, flag: bool, bits: seq<bool>, image: seq<bool>, arrived: bool) {
    && l.size == |image| && l.saveOffset == 0 && l.saveKey == 0
    && flag == (image != [] && !arrived) && (!flag ==> bits == image)
  }

  ghost predicate ListAwaited(zone: Zone, image: seq<seq<bool>>, arrived: seq<SavedList>, j: nat)
    requires zone.Valid() && zone.firstList + |zone.flags| <= |image| && j < |zone.flags|
    reads zone, zone.memory
  {
    var k := zone.firstList + j;
    IsAwaited(zone.lists[j + 1], zone.flags[j], zone.Bits()[j + 1], image[k], IsWritten(arrived, k))
  }

  /** A zone that is waiting for those of its lists that have not arrived. */
  ghost predicate Awaits(zone: Zone, image: seq<seq<bool>>, arrived: seq<SavedList>)
    reads zone, zone.memory
  {
    && zone.Valid() && !zone.writing && zone.firstList + |zone.flags| <= |image|
    && forall j :: 0 <= j < |zone.flags| ==> ListAwaited(zone, image, arrived, j)
  }

  /** A zone whose lists do not fit into its memory waits for none of them. */
  ghost predicate TooSmall(zone: Zone, image: seq<seq<bool>>)
    reads zone
  {
    && zone.Counted() && !zone.writing && zone.numTransfers == 0 && zone.firstList + |zone.flags| <= |image|
    && exists j :: 0 <= j < |zone.flags| && HasBits(image, zone.firstList, j)
  }

  ghost predicate HasBits(image: seq<seq<bool>>, firstList: nat, j: nat) {
    firstList + j < |image| && image[firstList + j] != []
  }

  /** The bits that a record holds are determined by its data. */
  lemma HoldsOnce(r: SavedList, a: seq<bool>, b: seq<bool>)
    requires Holds(r, a) && Holds(r, b) && |a| == |b|
    ensures a == b
  {
  }

  /** The record is one that a zone waits for, by its list and its size. */
  ghost predicate IsWanted(r: SavedList, image: seq<seq<bool>>, arrived: seq<SavedList>)
    requires r.index < |image|
  {
    image[r.index] != [] && !IsWritten(arrived, r.index) && r.byteCount == (r.bitOffset + |image[r.index]| + 7) / 8
  }

  /** Put a record in its zone. One that is not wanted is refused. */
  method RestoreInZone(zone: Zone, r: SavedList, ghost image: seq<seq<bool>>, ghost arrived: seq<SavedList>)
    returns (status: Status)
    requires Awaits(zone, image, arrived) || TooSmall(zone, image)
    requires zone.firstList <= r.index < zone.firstList + |zone.flags|
    requires r.bitOffset < 8 && r.byteCount == |r.data|
    modifies zone`flags, zone`numTransfers, zone.memory
    ensures |zone.flags| == |old(zone.flags)|
    ensures old(Awaits(zone, image, arrived)) ==>
      status == if IsWanted(r, image, arrived) then Success else CorruptComponent
    ensures old(TooSmall(zone, image)) ==> TooSmall(zone, image) && status.CorruptComponent?
    ensures old(Awaits(zone, image, arrived)) && !status.Success? ==> Awaits(zone, image, arrived)
    ensures status.Success? && Holds(r, image[r.index]) ==> Awaits(zone, image, arrived + [r])
  {
    hide Holds, IsWritten, Stream, WellPlaced, Contents, Snapshot;
    ghost var k, small := r.index - zone.firstList, TooSmall(zone, image);
    ghost var awaited := Awaits(zone, image, arrived);
    ghost var bits, flags := if awaited then zone.Bits() else [], zone.flags;
    CountZero(zone.flags);
    WellPlacedCounted(zone);
    if awaited {
      forall j | 0 <= j < |flags|
        ensures IsAwaited(zone.lists[j + 1], flags[j], bits[j + 1], image[zone.firstList + j],
          IsWritten(arrived, zone.firstList + j))
      {
        assert ListAwaited(zone, image, arrived, j);
      }
      assert IsAwaited(zone.lists[k + 1], flags[k], bits[k + 1], image[zone.firstList + k],
        IsWritten(arrived, r.index));
    }
    var buffer := new Byte[r.byteCount + POST_FIELD_GUARD_BYTES](i => BufferByte(r.data, i));
    assert buffer[..r.byteCount] == r.data;
    status := zone.RestoreList(r, buffer);
    if awaited {
      forall j | 0 <= j < |zone.flags|
        ensures !status.Success? ==> ListAwaited(zone, image, arrived, j)
        ensures status.Success? && Holds(r, image[r.index]) ==> ListAwaited(zone, image, arrived + [r], j)
      {
        IsWrittenMore(arrived, r, zone.firstList + j);
        assert IsAwaited(zone.lists[j + 1], flags[j], bits[j + 1], image[zone.firstList + j],
          IsWritten(arrived, zone.firstList + j));
        if status.Success? && Holds(r, image[r.index]) && j == k {
          HoldsOnce(r, image[r.index], zone.Bits()[k + 1]);
        }
      }
    }
  }

  lemma WellPlacedCounted(zone: Zone)
    ensures zone.Valid() ==> zone.Counted()
  {
  }

  function BufferByte(data: seq<Byte>, i: nat): Byte {
    if i < |data| then data[i] else [false, false, false, false, false, false, false, false]
  }

  /** A zone does not change what it waits for when a record of another zone arrives. */
  lemma AwaitsStill(zone: Zone, image: seq<seq<bool>>, arrived: seq<SavedList>, r: SavedList)
    requires Awaits(zone, image, arrived) && !(zone.firstList <= r.index < zone.firstList + |zone.flags|)
    ensures Awaits(zone, image, arrived + [r])
  {
    hide IsWritten, WellPlaced, Contents, Snapshot, IsAwaited;
    forall j | 0 <= j < |zone.flags|
      ensures ListAwaited(zone, image, arrived + [r], j)
    {
      IsWrittenMore(arrived, r, zone.firstList + j);
      assert ListAwaited(zone, image, arrived, j);
    }
  }

  /** A list of a zone is that of the image, and no search of it is remembered. */
  ghost predicate HoldsList(zone: Zone, image: seq<seq<bool>>, j: nat)
    requires zone.Valid() && zone.firstList + |zone.flags| <= |image| && j < |zone.flags|
    reads zone, zone.memory
  {
    && zone.Bits()[j + 1] == image[zone.firstList + j]
    && zone.lists[j + 1].saveOffset == 0 && zone.lists[j + 1].saveKey == 0
  }

  ghost predicate HoldsPart(zone: Zone, image: seq<seq<bool>>)
    reads zone, zone.memory
  {
    && zone.Valid() && zone.firstList + |zone.flags| <= |image|
    && forall j :: 0 <= j < |zone.flags| ==> HoldsList(zone, image, j)
  }

  ghost predicate HasArrived(image: seq<seq<bool>>, arrived: seq<SavedList>, firstList: nat, j: nat) {
    HasBits(image, firstList, j) ==> IsWritten(arrived, firstList + j)
  }

  /** No transfer is left if and only if every list of the zone that is not empty has
      arrived. The zone then holds its part of the image. */
  lemma AllArrived(zone: Zone, image: seq<seq<bool>>, arrived: seq<SavedList>)
    requires Awaits(zone, image, arrived)
    ensures zone.TransfersDone() <==> forall j :: 0 <= j < |zone.flags| ==>
      HasArrived(image, arrived, zone.firstList, j)
    ensures zone.TransfersDone() ==> HoldsPart(zone, image)
  {
    hide IsWritten, WellPlaced, Contents, Snapshot;
    CountZero(zone.flags);
    forall j | 0 <= j < |zone.flags|
      ensures zone.flags[j] <==> !HasArrived(image, arrived, zone.firstList, j)
      ensures !zone.flags[j] ==> HoldsList(zone, image, j)
    {
      assert ListAwaited(zone, image, arrived, j);
    }
  }

  /** A zone that is ready to receive its lists. */
  lemma ReadyAwaits(zone: Zone, image: seq<seq<bool>>)
    requires zone.Valid() && !zone.writing && zone.firstList + |zone.flags| <= |image|
    requires forall j :: 0 <= j < |zone.flags| ==> ReadyFor(zone, image, j)
    ensures Awaits(zone, image, [])
  {
    hide WellPlaced, Snapshot;
    forall j | 0 <= j < |zone.flags|
      ensures ListAwaited(zone, image, [], j)
    {
      assert ReadyFor(zone, image, j);
      WellPlacedList(zone.lists, zone.memory.Length, j + 1);
      assert |zone.Bits()[j + 1]| == zone.lists[j + 1].size;
    }
  }

  ghost predicate ReadyFor(zone: Zone, image: seq<seq<bool>>, j: nat)
    requires zone.firstList + |zone.flags| <= |image| && j < |zone.flags| == |zone.lists| - 2
    reads zone
  {
    && zone.flags[j] == (image[zone.firstList + j] != [])
    && var l := zone.lists[j + 1]; l.size == |image[zone.firstList + j]| && l.saveOffset == 0 && l.saveKey == 0
  }

  /** Lists of these sizes fit into a zone of the given length, or all of them are empty. */
  ghost predicate HasRoom(length: nat, sizes: seq<nat>) {
    && length >= POST_FIELD_GUARD_BYTES && |sizes| > 0
    && (|| BytesUsed(Sized(EmptyHeaders(length, |sizes|), sizes), |sizes| + 2) <= length
        || forall k :: 0 <= k < |sizes| ==> sizes[k] == 0)
  }

  /** A zone that has just begun to receive lists waits for its part of the image, or
      is too small for it. */
  method StartZone(zone: Zone, sizes: seq<nat>, ghost image: seq<seq<bool>>)
    requires zone.Valid() && !zone.writing && !zone.Restoring() && zone.firstList + |zone.flags| <= |sizes|
    requires AreSmall(sizes)
    modifies zone`lists, zone`flags, zone`numTransfers, zone.memory
    ensures zone.Counted() && |zone.flags| == |old(zone.flags)|
    ensures AreSizes(sizes, image) ==>
      if HasRoom(zone.memory.Length, sizes[zone.firstList..zone.firstList + |zone.flags|]) then Awaits(zone, image, [])
      else TooSmall(zone, image)
  {
    hide BytesUsed, Sized, Awaits, WellPlaced, Snapshot, Contents, EmptyHeaders;
    var n := |zone.flags|;
    var part := sizes[zone.firstList..zone.firstList + n];
    CountZero(zone.flags);
    WellPlacedCounted(zone);
    zone.Clear();
    if forall k :: 0 <= k < |part| ==> part[k] == 0 {
      SizedNothing(zone.lists, part);
    }
    var status := zone.StartRestoring(part);
    if AreSizes(sizes, image) {
      forall j | 0 <= j < n
        ensures part[j] == |image[zone.firstList + j]|
      {
        assert part[j] == sizes[zone.firstList + j];
      }
      CountZero(zone.flags);
      if HasRoom(zone.memory.Length, part) {
        forall j | 0 <= j < n
          ensures ReadyFor(zone, image, j)
        {
          assert part[j] == |image[zone.firstList + j]| && IsNewList(zone.lists, j, part[j]);
          assert zone.flags[j] == (part[j] > 0);
        }
        ReadyAwaits(zone, image);
      } else {
        var j :| 0 <= j < |part| && part[j] != 0;
        assert HasBits(image, zone.firstList, j);
      }
    }
  }

  lemma PartInside(numLists: nat, numZones: nat, zone: nat)
    requires zone < numZones && EnoughLists(numLists, numZones)
    ensures FirstList(numLists, numZones, zone) + ListsInZone(numLists, numZones, zone) <= numLists
  {
    hide ListsPerZone;
    PerZoneBounds(numLists, numZones);
    if zone < numZones - 1 {
      MulMonotone(zone + 1, numZones - 1, ListsPerZone(numLists, numZones));
    }
  }

  /** The memory of a delta index whose lists are divided among zones. */
  class ZonedIndex {
    const zones: seq<Zone>
    const numLists: nat
    const tag: char

    constructor (zones: seq<Zone>, numLists: nat, tag: char)
      ensures this.zones == zones && this.numLists == numLists && this.tag == tag
    {
      this.zones, this.numLists, this.tag := zones, numLists, tag;
    }

    ghost predicate Divided()
      reads zones
    {
      && |zones| > 0 && EnoughLists(numLists, |zones|)
      && (forall z :: 0 <= z < |zones| ==> HasPart(z))
      && (forall i, j :: 0 <= i < j < |zones| ==> zones[i] != zones[j] && zones[i].memory != zones[j].memory)
    }

    ghost predicate HasPart(z: nat)
      requires z < |zones| && EnoughLists(numLists, |zones|)
      reads zones[z]
    {
      zones[z].firstList == FirstList(numLists, |zones|, z) && |zones[z].flags| == ListsInZone(numLists, |zones|, z)
    }

    /** Every zone waits for its lists, or is too small for them. */
    ghost predicate AllWait(image: seq<seq<bool>>, arrived: seq<SavedList>)
      reads zones, set z | z in zones :: z.memory
    {
      forall z :: 0 <= z < |zones| ==> Awaits(zones[z], image, arrived) || TooSmall(zones[z], image)
    }

    /** A zone that is not transferring any list. */
    ghost predicate Idle(z: nat)
      requires z < |zones|
      reads zones[z], zones[z].memory
    {
      zones[z].Valid() && !zones[z].writing && !zones[z].Restoring()
    }

    /** A zone has room for its part of lists of these sizes. */
    ghost predicate Fits(z: nat, sizes: seq<nat>)
      requires z < |zones| && EnoughLists(numLists, |zones|)
    {
      && FirstList(numLists, |zones|, z) + ListsInZone(numLists, |zones|, z) <= |sizes|
      && HasRoom(zones[z].memory.Length,
           sizes[FirstList(numLists, |zones|, z)..FirstList(numLists, |zones|, z) + ListsInZone(numLists, |zones|, z)])
    }

    /** Prepare all zones to receive the lists of a saved index, in place of those they
        have. A zone with enough room then awaits its part of any image with those
        list sizes. */
    method StartRestoring(headers: seq<SaveHeader>, ghost image: seq<seq<bool>>)
      returns (status: Status, recordCount: nat, collisionCount: nat)
      requires Divided() && forall z :: 0 <= z < |zones| ==> Idle(z)
      requires forall i :: 0 <= i < |headers| ==> AreSmall(headers[i].sizes)
      modifies zones`lists, zones`flags, zones`numTransfers,
        set z | z in zones :: z.memory
      ensures Divided()
      ensures status.Success? <==> exists ordered :: IsMatchingSet(headers, ordered, numLists)
      ensures status.Success? ==>
        recordCount == AllRecords(headers) % UINT64_RANGE && collisionCount == AllCollisions(headers) % UINT64_RANGE
      ensures !status.Success? ==> forall z :: 0 <= z < |zones| ==> unchanged(zones[z]) && unchanged(zones[z].memory)
      ensures forall ordered, z :: IsMatchingSet(headers, ordered, numLists) && 0 <= z < |zones| ==>
        (AreSizes(AllSizes(ordered), image) ==>
          if Fits(z, AllSizes(ordered)) then Awaits(zones[z], image, []) else TooSmall(zones[z], image))
    {
      hide Awaits, TooSmall, FirstList, ListsInZone, EnoughLists, IsMatchingSet, AllSizes, Zone.Valid, HasRoom,
        AreSizes;
      var sizes;
      status, sizes, recordCount, collisionCount := ReadSizes(headers, numLists);
      if !status.Success? {
        return;
      }
      ghost var ordered :| IsMatchingSet(headers, ordered, numLists);
      for z := 0 to |zones|
        invariant Divided() && forall k :: z <= k < |zones| ==> Idle(k)
        invariant forall k :: 0 <= k < z && AreSizes(sizes, image) ==>
          if Fits(k, sizes) then Awaits(zones[k], image, []) else TooSmall(zones[k], image)
      {
        assert HasPart(z) && Idle(z);
        PartInside(numLists, |zones|, z);
        StartZone(zones[z], sizes, image);
        assert forall k :: 0 <= k < |zones| ==> HasPart(k);
      }
    }

    /** Put a record in the zone of its list. It is accepted if and only if it is meant
        for this index and the zone waits for it. */
    method RestoreRecord(r: SavedList, ghost image: seq<seq<bool>>, ghost arrived: seq<SavedList>)
      returns (status: Status)
      requires Divided() && |image| == numLists && AllWait(image, arrived)
      requires r.bitOffset < 8 && r.byteCount == |r.data|
      modifies zones`flags, zones`numTransfers, set z | z in zones :: z.memory
      ensures Divided()
      ensures status == if old(IsAccepted(r, image, arrived)) then Success else CorruptComponent
      ensures !status.Success? ==> AllWait(image, arrived)
      ensures status.Success? && Holds(r, image[r.index]) ==>
        && AllWait(image, arrived + [r])
        && forall z :: 0 <= z < |zones| && old(Awaits(zones[z], image, arrived)) ==>
            Awaits(zones[z], image, arrived + [r])
      ensures forall z :: 0 <= z < |zones| && old(TooSmall(zones[z], image)) ==> TooSmall(zones[z], image)
      ensures status.Success? ==> r.index < numLists && ListsPerZone(numLists, |zones|) > 0
      ensures status.Success? ==> forall z :: 0 <= z < |zones| && z == ZoneOf(numLists, |zones|, r.index) ==>
        !old(TooSmall(zones[z], image))
    {
      hide Awaits, TooSmall, Holds, IsWritten, FirstList, ListsInZone, ZoneOf, EnoughLists, IsWanted;
      if r.tag != tag || r.index >= numLists {
        return CorruptComponent;
      }
      RoutedToItsZone(numLists, |zones|, r.index);
      var z := ZoneOf(numLists, |zones|, r.index);
      assert HasPart(z) && (Awaits(zones[z], image, arrived) || TooSmall(zones[z], image));
      ghost var awaited := Awaits(zones[z], image, arrived);
      if awaited {
        NotBoth(zones[z], image, arrived, r);
      }
      status := RestoreInZone(zones[z], r, image, arrived);
      forall k | 0 <= k < |zones| && k != z
        ensures old(Awaits(zones[k], image, arrived)) ==>
          Awaits(zones[k], image, arrived) && Awaits(zones[k], image, arrived + [r])
        ensures old(TooSmall(zones[k], image)) ==> TooSmall(zones[k], image)
      {
        assert zones[k] != zones[z] && zones[k].memory != zones[z].memory;
        assert HasPart(k);
        if Awaits(zones[k], image, arrived) {
          NotInZone(numLists, |zones|, r.index, k);
          AwaitsStill(zones[k], image, arrived, r);
        }
      }
      assert forall k :: 0 <= k < |zones| ==> HasPart(k);
    }

    /** Give up restoring: every list is empty. */
    method AbortRestoring()
      requires Divided() && forall z :: 0 <= z < |zones| ==> zones[z].Counted() && !zones[z].writing
      modifies zones`lists, zones`flags, zones`numTransfers, set z | z in zones :: z.memory
      ensures Divided() && forall z :: 0 <= z < |zones| ==> Idle(z) && zones[z].Empty()
    {
      hide FirstList, ListsInZone, EnoughLists, Zone.Valid, Zone.Empty, WellPlaced, Contents;
      for z := 0 to |zones|
        invariant Divided() && forall k :: z <= k < |zones| ==> zones[k].Counted()
        invariant forall k :: 0 <= k < z ==> Idle(k) && zones[k].Empty()
      {
        assert HasPart(z);
        zones[z].AbortRestoring();
        FlagsCounted(zones[z]);
        assert forall k :: 0 <= k < |zones| ==> HasPart(k);
      }
    }

    /** Whether all zones have received their lists. */
    method TransfersDone() returns (done: bool)
      ensures done <==> forall z :: 0 <= z < |zones| ==> zones[z].TransfersDone()
    {
      for z := 0 to |zones|
        invariant forall k :: 0 <= k < z ==> zones[k].TransfersDone()
      {
        if !zones[z].TransfersDone() {
          return false;
        }
      }
      return true;
    }

    /** Restore all lists, in whatever order they come. Every record has to be for a
        list that is still awaited in a zone with enough room, and all of them have to
        arrive; otherwise nothing is kept. */
    method RestoreLists(stream: seq<SavedList>, ghost image: seq<seq<bool>>, ghost awaiting: seq<bool>)
      returns (status: Status)
      requires Divided() && |image| == numLists && AreRecords(stream) && Agrees(stream, image)
      requires |awaiting| == |zones| && forall z :: 0 <= z < |zones| ==>
        if awaiting[z] then Awaits(zones[z], image, []) else TooSmall(zones[z], image)
      modifies zones`lists, zones`flags, zones`numTransfers, set z | z in zones :: z.memory
      ensures Divided()
      ensures status.Success? <==>
        && (forall i :: 0 <= i < |stream| ==> IsAcceptable(stream, image, awaiting, i))
        && (forall z :: 0 <= z < |zones| && awaiting[z] ==> PartArrived(stream, image, z))
      ensures status.Success? ==> forall z :: 0 <= z < |zones| ==>
        if awaiting[z] then zones[z].TransfersDone() && HoldsPart(zones[z], image) else TooSmall(zones[z], image)
      ensures !status.Success? ==> status.CorruptComponent? && forall z :: 0 <= z < |zones| ==>
        Idle(z) && zones[z].Empty()
    {
      hide Awaits, TooSmall, Holds, IsWritten, FirstList, ListsInZone, ZoneOf, EnoughLists, IsWanted, HoldsPart,
        HasArrived;
      for i := 0 to |stream|
        invariant Divided()
        invariant forall z :: 0 <= z < |zones| ==>
          if awaiting[z] then Awaits(zones[z], image, stream[..i]) else TooSmall(zones[z], image)
        invariant forall k :: 0 <= k < i ==> IsAcceptable(stream, image, awaiting, k)
      {
        WaitingStep(stream, image, awaiting, i);
        status := RestoreRecord(stream[i], image, stream[..i]);
        if !status.Success? {
          AllCounted(image, stream[..i]);
          AbortRestoring();
          return;
        }
        assert stream[..i] + [stream[i]] == stream[..i + 1];
      }
      assert stream[..|stream|] == stream;
      status := CheckDone(stream, image, awaiting);
    }

    /** Give up unless all lists have arrived. */
    method CheckDone(stream: seq<SavedList>, ghost image: seq<seq<bool>>, ghost awaiting: seq<bool>)
      returns (status: Status)
      requires Divided() && |awaiting| == |zones| && forall z :: 0 <= z < |zones| ==>
        if awaiting[z] then Awaits(zones[z], image, stream) else TooSmall(zones[z], image)
      modifies zones`lists, zones`flags, zones`numTransfers, set z | z in zones :: z.memory
      ensures Divided()
      ensures status.Success? <==> forall z :: 0 <= z < |zones| && awaiting[z] ==> PartArrived(stream, image, z)
      ensures status.Success? ==> forall z :: 0 <= z < |zones| ==>
        if awaiting[z] then zones[z].TransfersDone() && HoldsPart(zones[z], image) else TooSmall(zones[z], image)
      ensures !status.Success? ==> status.CorruptComponent? && forall z :: 0 <= z < |zones| ==>
        Idle(z) && zones[z].Empty()
    {
      hide Awaits, TooSmall, IsWritten, FirstList, ListsInZone, EnoughLists, HoldsPart, HasArrived, Zone.Empty;
      forall z | 0 <= z < |zones|
        ensures zones[z].TransfersDone() <==> (awaiting[z] ==> PartArrived(stream, image, z))
        ensures awaiting[z] && zones[z].TransfersDone() ==> HoldsPart(zones[z], image)
      {
        assert HasPart(z);
        if awaiting[z] {
          AllArrived(zones[z], image, stream);
        } else {
          SmallIsDone(zones[z], image);
        }
      }
      var done := TransfersDone();
      if !done {
        AllCounted(image, stream);
        AbortRestoring();
        return CorruptComponent;
      }
      status := Success;
    }

    /** The record is wanted when it comes, by a zone with enough room. */
    ghost predicate IsAcceptable(stream: seq<SavedList>, image: seq<seq<bool>>, awaiting: seq<bool>, i: nat)
      requires |image| == numLists && i < |stream| && |awaiting| == |zones| > 0
    {
      && stream[i].tag == tag && stream[i].index < numLists && IsWanted(stream[i], image, stream[..i])
      && ListsPerZone(numLists, |zones|) > 0 && ZoneOf(numLists, |zones|, stream[i].index) < |zones|
      && awaiting[ZoneOf(numLists, |zones|, stream[i].index)]
    }

    /** All lists of a zone that are not empty are in the stream. */
    ghost predicate PartArrived(stream: seq<SavedList>, image: seq<seq<bool>>, z: nat)
      requires z < |zones| && EnoughLists(numLists, |zones|)
    {
      forall j :: 0 <= j < ListsInZone(numLists, |zones|, z) ==>
        HasArrived(image, stream, FirstList(numLists, |zones|, z), j)
    }

    /** What the next record finds. */
    lemma WaitingStep(stream: seq<SavedList>, image: seq<seq<bool>>, awaiting: seq<bool>, i: nat)
      requires Divided() && |image| == numLists && i < |stream| && |awaiting| == |zones|
      requires forall z :: 0 <= z < |zones| ==>
        if awaiting[z] then Awaits(zones[z], image, stream[..i]) else TooSmall(zones[z], image)
      ensures AllWait(image, stream[..i])
      ensures IsAccepted(stream[i], image, stream[..i]) <==> IsAcceptable(stream, image, awaiting, i)
    {
      hide Awaits, TooSmall, IsWritten, FirstList, ListsInZone, ZoneOf, EnoughLists, IsWanted;
      if stream[i].index < numLists {
        RoutedToItsZone(numLists, |zones|, stream[i].index);
        var z := ZoneOf(numLists, |zones|, stream[i].index);
        assert HasPart(z);
        if Awaits(zones[z], image, stream[..i]) {
          NotBoth(zones[z], image, stream[..i], stream[i]);
        }
      }
    }

    lemma AllCounted(image: seq<seq<bool>>, arrived: seq<SavedList>)
      requires AllWait(image, arrived)
      ensures forall z :: 0 <= z < |zones| ==> zones[z].Counted() && !zones[z].writing
    {
      forall z | 0 <= z < |zones|
        ensures zones[z].Counted() && !zones[z].writing
      {
        WellPlacedCounted(zones[z]);
      }
    }

    /** The record is meant for this index, and its zone waits for it. */
    ghost predicate IsAccepted(r: SavedList, image: seq<seq<bool>>, arrived: seq<SavedList>)
      requires Divided() && |image| == numLists
      reads zones, set z | z in zones :: z.memory
    {
      && r.tag == tag && r.index < numLists && IsWanted(r, image, arrived)
      && ListsPerZone(numLists, |zones|) > 0 && ZoneOf(numLists, |zones|, r.index) < |zones|
      && Awaits(zones[ZoneOf(numLists, |zones|, r.index)], image, arrived)
    }
  }

  lemma NotInZone(numLists: nat, numZones: nat, list: nat, zone: nat)
    requires numZones > 0 && EnoughLists(numLists, numZones) && list < numLists && zone < numZones
    requires ListsPerZone(numLists, numZones) > 0 && zone != ZoneOf(numLists, numZones, list)
    ensures !(FirstList(numLists, numZones, zone) <= list < FirstList(numLists, numZones, zone) +
      ListsInZone(numLists, numZones, zone))
  {
    if FirstList(numLists, numZones, zone) <= list < FirstList(numLists, numZones, zone) +
      ListsInZone(numLists, numZones, zone) {
      OnlyItsZone(numLists, numZones, list, zone);
    }
  }

  lemma FlagsCounted(zone: Zone)
    requires zone.Valid()
    ensures |zone.flags| == |zone.lists| - 2
  {
  }

  lemma SmallIsDone(zone: Zone, image: seq<seq<bool>>)
    requires TooSmall(zone, image)
    ensures zone.TransfersDone()
  {
  }

  /** What is read from a file: a record with its data. */
  predicate AreRecords(stream: seq<SavedList>) {
    forall i :: 0 <= i < |stream| ==> stream[i].bitOffset < 8 && stream[i].byteCount == |stream[i].data|
  }

  /** The image has the bits of each list that can be restored. */
  ghost predicate Agrees(stream: seq<SavedList>, image: seq<seq<bool>>) {
    forall i :: 0 <= i < |stream| && stream[i].index < |image| && IsWanted(stream[i], image, stream[..i]) ==>
      Holds(stream[i], image[stream[i].index])
  }

  /** A zone that waits for a list has room for it. */
  lemma NotBoth(zone: Zone, image: seq<seq<bool>>, arrived: seq<SavedList>, r: SavedList)
    requires Awaits(zone, image, arrived) && zone.firstList <= r.index < zone.firstList + |zone.flags|
    ensures TooSmall(zone, image) ==> !IsWanted(r, image, arrived)
  {
    hide IsWritten, WellPlaced, Contents, Snapshot;
    CountZero(zone.flags);
    assert ListAwaited(zone, image, arrived, r.index - zone.firstList);
  }
}
