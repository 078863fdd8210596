/** A delta index whose lists are divided among zones, saved with one number of zones
    and restored with another (uds/deltaIndex.c, uds/masterIndexOps.c). */
module DeltaTransfer {
  import opened Bits
  import opened Numbers
  import opened DeltaCode
  import opened DeltaLayout
  import opened DeltaSave
  import opened DeltaMemory
  import opened DeltaEntries
  import opened DeltaIndexSpec
  import opened DeltaIndex
  import opened ZoneDivision
  import opened SaveHeaders
  import opened SaveFiles
  import opened DeltaRestore
  import opened UdsStatus

  // ----- Parts of an index -----

  /** The lists of one zone. */
  ghost function PartOf<T>(whole: seq<T>, numZones: nat, z: nat): (part: seq<T>)
    requires z < numZones && EnoughLists(|whole|, numZones)
    ensures |part| == ListsInZone(|whole|, numZones, z)
    ensures FirstList(|whole|, numZones, z) + |part| <= |whole|
    ensures part == whole[FirstList(|whole|, numZones, z)..FirstList(|whole|, numZones, z) + |part|]
  {
    PartInside(|whole|, numZones, z);
    whole[FirstList(|whole|, numZones, z)..FirstList(|whole|, numZones, z) + ListsInZone(|whole|, numZones, z)]
  }

  ghost function Parts<T>(whole: seq<T>, numZones: nat): (parts: seq<seq<T>>)
    requires numZones > 0 && EnoughLists(|whole|, numZones)
    ensures |parts| == numZones && forall z :: 0 <= z < numZones ==> parts[z] == PartOf(whole, numZones, z)
  {
    seq(numZones, z requires 0 <= z < numZones => PartOf(whole, numZones, z))
  }

  /** How many lists the first n zones have. */
  ghost function ListsBefore(numLists: nat, numZones: nat, n: nat): nat
    requires numZones > 0
  {
    if n == numZones then numLists else FirstList(numLists, numZones, n)
  }

  lemma BeforeNext(numLists: nat, numZones: nat, n: nat)
    requires n < numZones && EnoughLists(numLists, numZones)
    ensures ListsBefore(numLists, numZones, n) == FirstList(numLists, numZones, n)
    ensures ListsBefore(numLists, numZones, n + 1) ==
      FirstList(numLists, numZones, n) + ListsInZone(numLists, numZones, n)
    ensures ListsBefore(numLists, numZones, n + 1) <= numLists
  {
    ZonesFollow(numLists, numZones, n);
    PartInside(numLists, numZones, n);
  }

  lemma BeforeFirst(numLists: nat, numZones: nat)
    requires numZones > 0
    ensures ListsBefore(numLists, numZones, 0) == 0
  {
  }

  /** The parts of an image make up the image. */
  lemma {:induction false} PartsJoin(image: seq<seq<bool>>, numZones: nat, n: nat)
    requires n <= numZones && numZones > 0 && EnoughLists(|image|, numZones)
    ensures ListsBefore(|image|, numZones, n) <= |image|
    ensures WholeImage(Parts(image, numZones)[..n]) == image[..ListsBefore(|image|, numZones, n)]
  {
    hide FirstList, ListsInZone, EnoughLists, ListsBefore;
    var parts := Parts(image, numZones);
    if n == 0 {
      BeforeFirst(|image|, numZones);
      assert parts[..0] == [];
    } else {
      PartsJoin(image, numZones, n - 1);
      BeforeNext(|image|, numZones, n - 1);
      assert parts[..n][..n - 1] == parts[..n - 1];
      JoinTwo(image, ListsBefore(|image|, numZones, n - 1), ListsBefore(|image|, numZones, n));
    }
  }

  lemma JoinTwo<T>(s: seq<T>, a: nat, b: nat)
    requires a <= b <= |s|
    ensures s[..a] + s[a..b] == s[..b]
  {
  }

  // ----- Counts -----

  function Word(x: int): nat {
    x % UINT64_RANGE
  }

  function Sum(xs: seq<int>): int {
    if xs == [] then 0 else Sum(xs[..|xs| - 1]) + xs[|xs| - 1]
  }

  lemma {:induction false} CountsJoin(a: seq<seq<Entry>>, b: seq<seq<Entry>>)
    ensures Records(a + b) == Records(a) + Records(b) && Collisions(a + b) == Collisions(a) + Collisions(b)
  {
    if b == [] {
      assert a + b == a;
    } else {
      var n := |b| - 1;
      CountsJoin(a, b[..n]);
      assert (a + b)[..|a + b| - 1] == a + b[..n];
    }
  }

  lemma {:induction false} NamesBelow(es: seq<Entry>)
    ensures Names(es) <= |es|
  {
    if es != [] {
      NamesBelow(es[..|es| - 1]);
    }
  }

  /** There are not more collisions than records, and records are bounded. */
  lemma {:induction false} CountsBound(ess: seq<seq<Entry>>)
    requires forall k :: 0 <= k < |ess| ==> |ess[k]| <= UINT16_MAX
    ensures Collisions(ess) <= Records(ess) <= UINT16_MAX * |ess|
  {
    if ess != [] {
      CountsBound(ess[..|ess| - 1]);
      NamesBelow(ess[|ess| - 1]);
    }
  }

  /** Every entry takes at least one bit. */
  lemma {:induction false} EntriesBelowBits(f: Format, es: seq<Entry>)
    requires f.coding.incrKeys > 0 && f.coding.minBits > 0
    ensures |es| <= |ListCode(f, es)|
  {
    hide EntryCode;
    if es != [] {
      EntrySize(f, es[0]);
      EntriesBelowBits(f, es[1..]);
    }
  }

  // ----- What a save is -----

  ghost function SizesOf(f: Format, ess: seq<seq<Entry>>): (sizes: seq<nat>)
    requires f.coding.incrKeys > 0
    ensures |sizes| == |ess|
  {
    seq(|ess|, k requires 0 <= k < |ess| => |ListCode(f, ess[k])|)
  }

  /** Lists that a zone can have. */
  ghost predicate AreLists(f: Format, ess: seq<seq<Entry>>)
    requires f.coding.incrKeys > 0
  {
    forall k :: 0 <= k < |ess| ==> WellFormed(f, ess[k]) && |ListCode(f, ess[k])| <= UINT16_MAX
  }

  /** The header that a zone with these lists writes. */
  ghost function HeaderOf(f: Format, ess: seq<seq<Entry>>, z: nat, numZones: nat, firstList: nat, records: int,
      collisions: int): SaveHeader
    requires f.coding.incrKeys > 0
  {
    SaveHeader(z, numZones, firstList, Word(records), Word(collisions), SizesOf(f, ess))
  }

  /** The file of zone z of an index with the lists whole. */
  ghost predicate IsFileOf(tag: char, f: Format, file: SaveFile, whole: seq<seq<Entry>>, numZones: nat, z: nat,
      recordSkew: int, collisionSkew: int)
    requires f.coding.incrKeys > 0 && z < numZones && EnoughLists(|whole|, numZones)
  {
    var part, first := PartOf(whole, numZones, z), FirstList(|whole|, numZones, z);
    && file.header ==
        HeaderOf(f, part, z, numZones, first, Records(part) + recordSkew, Collisions(part) + collisionSkew)
    && Complete(tag, first, file.records, Codes(f, part))
  }

  /** The files, in the order of their zones, are a save of the lists whole. */
  ghost predicate IsSaveOf(tag: char, f: Format, files: seq<SaveFile>, whole: seq<seq<Entry>>, recordSkews: seq<int>,
      collisionSkews: seq<int>)
    requires f.coding.incrKeys > 0
  {
    && 0 < |files| <= MAX_ZONES && EnoughLists(|whole|, |files|) && |whole| < UINT32_RANGE && AreLists(f, whole)
    && |recordSkews| == |collisionSkews| == |files| && Sum(recordSkews) == 0 && Sum(collisionSkews) == 0
    && forall z :: 0 <= z < |files| ==> IsFileOf(tag, f, files[z], whole, |files|, z, recordSkews[z], collisionSkews[z])
  }

  lemma CodesOfPart(f: Format, whole: seq<seq<Entry>>, numZones: nat, z: nat)
    requires f.coding.incrKeys > 0 && z < numZones && EnoughLists(|whole|, numZones)
    ensures Codes(f, PartOf(whole, numZones, z)) == PartOf(Codes(f, whole), numZones, z)
    ensures AreSizes(SizesOf(f, PartOf(whole, numZones, z)), PartOf(Codes(f, whole), numZones, z))
    ensures AreLists(f, whole) ==> AreSmall(SizesOf(f, PartOf(whole, numZones, z)))
  {
    hide FirstList, ListsInZone, EnoughLists, ListCode, WellFormed;
  }

  /** The counts of the first n zones, as words, are those of their lists. */
  lemma {:induction false} CountsOfFiles(tag: char, f: Format, files: seq<SaveFile>, whole: seq<seq<Entry>>,
      recordSkews: seq<int>, collisionSkews: seq<int>, n: nat)
    requires f.coding.incrKeys > 0 && IsSaveOf(tag, f, files, whole, recordSkews, collisionSkews) && n <= |files|
    ensures var before := ListsBefore(|whole|, |files|, n);
      && before <= |whole|
      && Word(AllRecords(HeadersOf(files)[..n])) == Word(Records(whole[..before]) + Sum(recordSkews[..n]))
      && Word(AllCollisions(HeadersOf(files)[..n])) == Word(Collisions(whole[..before]) + Sum(collisionSkews[..n]))
  {
    hide FirstList, ListsInZone, EnoughLists, ListsBefore, Complete, Records, Collisions, AreLists, SizesOf, Word, Sum,
      AllRecords, AllCollisions, Codes;
    if n == 0 {
      BeforeFirst(|whole|, |files|);
      assert whole[..0] == [] && HeadersOf(files)[..0] == [] && recordSkews[..0] == [] && collisionSkews[..0] == [];
      NothingCounted();
    } else {
      CountsOfFiles(tag, f, files, whole, recordSkews, collisionSkews, n - 1);
      BeforeNext(|whole|, |files|, n - 1);
      var part, h := PartOf(whole, |files|, n - 1), files[n - 1].header;
      assert IsFileOf(tag, f, files[n - 1], whole, |files|, n - 1, recordSkews[n - 1], collisionSkews[n - 1]);
      JoinTwo(whole, ListsBefore(|whole|, |files|, n - 1), ListsBefore(|whole|, |files|, n));
      CountsJoin(whole[..ListsBefore(|whole|, |files|, n - 1)], part);
      CountsMore(HeadersOf(files), n - 1);
      SumMore(recordSkews, n - 1);
      SumMore(collisionSkews, n - 1);
      WordsAdd(AllRecords(HeadersOf(files)[..n - 1]),
        Records(whole[..ListsBefore(|whole|, |files|, n - 1)]) + Sum(recordSkews[..n - 1]),
        Records(part) + recordSkews[n - 1]);
      WordsAdd(AllCollisions(HeadersOf(files)[..n - 1]),
        Collisions(whole[..ListsBefore(|whole|, |files|, n - 1)]) + Sum(collisionSkews[..n - 1]),
        Collisions(part) + collisionSkews[n - 1]);
    }
  }

  lemma NothingCounted()
    ensures Records([]) == 0 && Collisions([]) == 0 && AllRecords([]) == 0 && AllCollisions([]) == 0 && Sum([]) == 0
  {
  }

  lemma SumMore(xs: seq<int>, n: nat)
    requires n < |xs|
    ensures Sum(xs[..n + 1]) == Sum(xs[..n]) + xs[n]
  {
    assert xs[..n + 1][..n] == xs[..n];
  }

  lemma WordsAdd(a: int, b: int, c: int)
    requires Word(a) == Word(b)
    ensures Word(a + Word(c)) == Word(b + c)
  {
    SumWraps(a, c);
    SumWraps(b, c);
    SumWraps(c, a);
  }

  /** The files of a save of an index are a save of the bits of its lists, and the counts
      in their headers add up to those of the index. */
  lemma SaveOfIsSave(tag: char, f: Format, files: seq<SaveFile>, whole: seq<seq<Entry>>, recordSkews: seq<int>,
      collisionSkews: seq<int>)
    requires IsFormat(f) && f.coding.incrKeys > 0 && IsSaveOf(tag, f, files, whole, recordSkews, collisionSkews)
    ensures |files| > 0 && EnoughLists(|whole|, |files|) && IsSave(tag, files, Parts(Codes(f, whole), |files|))
    ensures WholeImage(Parts(Codes(f, whole), |files|)) == Codes(f, whole)
    ensures AllRecords(HeadersOf(files)) % UINT64_RANGE == Records(whole)
    ensures AllCollisions(HeadersOf(files)) % UINT64_RANGE == Collisions(whole)
  {
    hide FirstList, ListsInZone, EnoughLists, ListsBefore, Records, Collisions, AllRecords, AllCollisions, WholeImage,
      IsFormat, AreLists, IsFileOf, IsZoneFile;
    var image := Codes(f, whole);
    var parts := Parts(image, |files|);
    forall z | 0 <= z < |files|
      ensures IsZoneFile(tag, files, parts, z)
    {
      FileIsZoneFile(tag, f, files, whole, z, recordSkews[z], collisionSkews[z]);
    }
    PartsJoin(image, |files|, |files|);
    AllBefore(|whole|, |files|);
    assert parts[..|files|] == parts && image[..|whole|] == image;
    CountsOfSave(tag, f, files, whole, recordSkews, collisionSkews);
  }

  lemma FileIsZoneFile(tag: char, f: Format, files: seq<SaveFile>, whole: seq<seq<Entry>>, z: nat, recordSkew: int,
      collisionSkew: int)
    requires f.coding.incrKeys > 0 && z < |files| && EnoughLists(|whole|, |files|) && AreLists(f, whole)
    requires IsFileOf(tag, f, files[z], whole, |files|, z, recordSkew, collisionSkew)
    ensures IsZoneFile(tag, files, Parts(Codes(f, whole), |files|), z)
  {
    hide FirstList, ListsInZone, EnoughLists, ListsBefore, Complete, Records, Collisions, SizesOf, WholeImage, AreLists,
      AreSizes, Codes;
    CodesOfPart(f, whole, |files|, z);
    PartsJoin(Codes(f, whole), |files|, z);
    BeforeNext(|whole|, |files|, z);
  }

  lemma CountsOfSave(tag: char, f: Format, files: seq<SaveFile>, whole: seq<seq<Entry>>, recordSkews: seq<int>,
      collisionSkews: seq<int>)
    requires IsFormat(f) && f.coding.incrKeys > 0 && IsSaveOf(tag, f, files, whole, recordSkews, collisionSkews)
    ensures AllRecords(HeadersOf(files)) % UINT64_RANGE == Records(whole)
    ensures AllCollisions(HeadersOf(files)) % UINT64_RANGE == Collisions(whole)
    ensures CountsAgree(HeadersOf(files))
  {
    hide EnoughLists, ListsBefore, Records, Collisions, AllRecords, AllCollisions, IsFormat, AreLists, IsFileOf, Sum;
    CountsOfFiles(tag, f, files, whole, recordSkews, collisionSkews, |files|);
    AllBefore(|whole|, |files|);
    assert HeadersOf(files)[..|files|] == HeadersOf(files) && whole[..|whole|] == whole;
    assert recordSkews[..|files|] == recordSkews && collisionSkews[..|files|] == collisionSkews;
    RecordsAreWords(f, whole);
  }

  lemma AllBefore(numLists: nat, numZones: nat)
    requires numZones > 0
    ensures ListsBefore(numLists, numZones, numZones) == numLists
  {
  }

  lemma RecordsAreWords(f: Format, whole: seq<seq<Entry>>)
    requires IsFormat(f) && f.coding.incrKeys > 0 && AreLists(f, whole) && |whole| < UINT32_RANGE
    ensures Collisions(whole) <= Records(whole) < UINT64_RANGE
    ensures Word(Records(whole)) == Records(whole) && Word(Collisions(whole)) == Collisions(whole)
  {
    hide Word, ListCode, WellFormed, IsFormat, Records, Collisions;
    FormatBasics(f);
    forall k | 0 <= k < |whole|
      ensures |whole[k]| <= UINT16_MAX
    {
      EntriesBelowBits(f, whole[k]);
    }
    CountsBound(whole);
    SmallWord(Records(whole));
    SmallWord(Collisions(whole));
  }

  lemma SmallWord(x: nat)
    requires x < UINT64_RANGE
    ensures Word(x) == x
  {
  }

  /** What a complete save means record by record: each one is wanted when it comes, and
      no list is missing. */
  lemma CompleteRecord(tag: char, stream: seq<SavedList>, image: seq<seq<bool>>, i: nat)
    requires Complete(tag, 0, stream, image) && i < |stream|
    ensures stream[i].bitOffset < 8 && stream[i].byteCount == |stream[i].data| && stream[i].tag == tag
    ensures stream[i].index < |image| && IsWanted(stream[i], image, stream[..i]) &&
      Holds(stream[i], image[stream[i].index])
  {
    assert Faithful(stream[i], seq(|image|, _ => false), tag, 0, image);
  }

  lemma CompleteAgrees(tag: char, stream: seq<SavedList>, image: seq<seq<bool>>)
    requires Complete(tag, 0, stream, image)
    ensures AreRecords(stream) && Agrees(stream, image)
    ensures forall firstList: nat, j: nat :: HasArrived(image, stream, firstList, j)
  {
    hide Complete, Holds, IsWanted, IsWritten;
    forall i | 0 <= i < |stream|
      ensures stream[i].bitOffset < 8 && stream[i].byteCount == |stream[i].data|
      ensures stream[i].index < |image| && Holds(stream[i], image[stream[i].index])
    {
      CompleteRecord(tag, stream, image, i);
    }
    forall firstList: nat, j: nat
      ensures HasArrived(image, stream, firstList, j)
    {
      if HasBits(image, firstList, j) {
        CompleteHas(tag, stream, image, firstList + j);
      }
    }
  }

  lemma CompleteHas(tag: char, stream: seq<SavedList>, image: seq<seq<bool>>, k: nat)
    requires Complete(tag, 0, stream, image) && k < |image| && image[k] != []
    ensures IsWritten(stream, k)
  {
    assert IsWritten(stream, 0 + k);
  }

  class ZonedDeltaIndex {
    const zones: seq<DeltaIndexZone>
    /** The memory of the zones. */
    const lists: ZonedIndex
    const format: Format

    constructor (zones: seq<DeltaIndexZone>, lists: ZonedIndex, format: Format)
      ensures this.zones == zones && this.lists == lists && this.format == format
    {
      this.zones, this.lists, this.format := zones, lists, format;
    }

    /** The lists are divided among the zones. */
    ghost predicate Shape()
      reads lists.zones
    {
      && lists.Divided() && |zones| == |lists.zones| <= MAX_ZONES && lists.numLists < UINT32_RANGE
      && IsFormat(format) && format.coding.incrKeys > 0
      && (forall z :: 0 <= z < |zones| ==> HasZone(z))
      && (forall i, j :: 0 <= i < j < |zones| ==> zones[i] != zones[j])
    }

    ghost predicate HasZone(z: nat)
      requires z < |zones| == |lists.zones|
    {
      zones[z].zone == lists.zones[z] && zones[z].format == format && lists.zones[z].tag == lists.tag
    }

    ghost predicate Valid()
      reads lists.zones, zones, set z | z in zones :: z.zone, set z | z in zones :: z.zone.memory
    {
      Shape() && forall z :: 0 <= z < |zones| ==> zones[z].Valid()
    }

    /** No save is in progress. */
    ghost predicate NoneWriting()
      reads lists.zones
    {
      forall z :: 0 <= z < |lists.zones| ==> !lists.zones[z].writing
    }

    ghost function RecordSkews(): (skews: seq<int>)
      reads zones
      ensures |skews| == |zones|
    {
      seq(|zones|, z requires 0 <= z < |zones| reads zones => zones[z].recordSkew)
    }

    ghost function CollisionSkews(): (skews: seq<int>)
      reads zones
      ensures |skews| == |zones|
    {
      seq(|zones|, z requires 0 <= z < |zones| reads zones => zones[z].collisionSkew)
    }

    /** The counts of all zones together are right. */
    ghost predicate Balanced()
      reads zones
    {
      Sum(RecordSkews()) == 0 && Sum(CollisionSkews()) == 0
    }

    /** The entries of all lists. */
    ghost predicate HasEntries(whole: seq<seq<Entry>>)
      reads zones
    {
      && |whole| == lists.numLists && |zones| > 0 && EnoughLists(|whole|, |zones|)
      && forall z :: 0 <= z < |zones| ==> zones[z].entries == PartOf(whole, |zones|, z)
    }

    /** Every zone has room for its part of the lists. */
    ghost predicate HasRoomFor(whole: seq<seq<Entry>>)
      requires |lists.zones| > 0 && EnoughLists(lists.numLists, |lists.zones|) && format.coding.incrKeys > 0
    {
      forall z :: 0 <= z < |lists.zones| ==> lists.Fits(z, SizesOf(format, whole))
    }

    /** Begin to save one zone: write the header and the sizes of its lists. */
    method StartSavingZone(z: nat) returns (header: SaveHeader)
      requires Valid() && z < |zones| && !zones[z].zone.writing
      modifies zones[z].zone`flags, zones[z].zone`numTransfers, zones[z].zone`writing, zones[z].zone`written,
        zones[z].zone`image
      ensures Valid() && zones[z].zone.writing && zones[z].zone.image == Codes(format, zones[z].entries)
      ensures AreLists(format, zones[z].entries)
      ensures header == HeaderOf(format, zones[z].entries, z, |zones|, FirstList(lists.numLists, |zones|, z),
        zones[z].recordCount, zones[z].collisionCount)
    {
      hide FirstList, ListsInZone, EnoughLists, ListCode, WellFormed, Snapshot, WellPlaced, Contents, Remembered,
        IsFormat,
        Records, Collisions;
      assert HasZone(z) && lists.HasPart(z);
      var zone := zones[z].zone;
      var sizes := [];
      for i := 0 to |zone.lists| - 2
        invariant |sizes| == i && forall k :: 0 <= k < i ==> sizes[k] == zone.lists[k + 1].size
      {
        sizes := sizes + [zone.lists[i + 1].size];
      }
      SizesAreCodes(zones[z], sizes);
      header := SaveHeader(z, |zones|, zone.firstList, Word(zones[z].recordCount), Word(zones[z].collisionCount),
        sizes);
      zone.StartSaving();
      ImageIsCodes(zones[z]);
      forall k | 0 <= k < |zones|
        ensures lists.HasPart(k) && HasZone(k) && zones[k].Valid()
      {
        assert HasZone(k) && lists.HasPart(k);
      }
    }

    /** Write what is left of one zone. */
    method FinishSavingZone(z: nat) returns (status: Status, records: seq<SavedList>)
      requires Valid() && z < |zones| && zones[z].zone.writing
      modifies zones[z].zone`flags, zones[z].zone`numTransfers, zones[z].zone`writing, zones[z].zone`written
      ensures Valid() && !zones[z].zone.writing && status.Success?
      ensures Complete(lists.tag, FirstList(lists.numLists, |zones|, z), records, zones[z].zone.image)
    {
      hide FirstList, ListsInZone, EnoughLists, ListCode, WellFormed, Snapshot, WellPlaced, Contents, Remembered,
        IsFormat,
        Records, Collisions, Complete;
      assert HasZone(z) && lists.HasPart(z);
      ghost var n := |zones[z].zone.flags|;
      status := zones[z].zone.FinishSaving();
      records := zones[z].zone.written;
      forall k | 0 <= k < |zones|
        ensures lists.HasPart(k) && HasZone(k) && zones[k].Valid()
      {
        assert HasZone(k) && lists.HasPart(k);
      }
    }
  }

  /** An index of empty lists, if there are enough of them for all zones. */
  method MakeIndex(numZones: nat, numLists: nat, format: Format, zoneSize: nat, tag: char)
    returns (status: Status, index: ZonedDeltaIndex?)
    requires 0 < numZones <= MAX_ZONES && numLists < UINT32_RANGE && IsFormat(format) &&
      zoneSize >= POST_FIELD_GUARD_BYTES
    ensures status == if EnoughLists(numLists, numZones) then Success else InvalidArgument
    ensures status.Success? ==>
      && index != null && index.Valid() && index.NoneWriting() && index.Balanced()
      && index.HasEntries(seq(numLists, _ => [])) && |index.zones| == numZones && index.format == format
      && index.lists.tag == tag && forall z :: 0 <= z < numZones ==> index.lists.zones[z].memory.Length == zoneSize
  {
    hide FirstList, IsFormat, DeltaIndexZone.Valid, ListsPerZone, Sum;
    FormatBasics(format);
    index := null;
    var listsPerZone := ListsPerZone(numLists, numZones);
    var zones: seq<DeltaIndexZone>, memories: seq<Zone> := [], [];
    for z := 0 to numZones
      invariant |zones| == |memories| == z && (z == numZones ==> EnoughLists(numLists, numZones))
      invariant forall k :: 0 <= k < z ==> NewZone(zones[k], memories[k], format, numLists, numZones, k, zoneSize, tag)
      invariant forall i, j :: 0 <= i < j < z ==>
        zones[i] != zones[j] && memories[i] != memories[j] && memories[i].memory != memories[j].memory
    {
      var firstListInZone := z * listsPerZone;
      FirstIs(numLists, numZones, z);
      var numListsInZone := listsPerZone;
      if z == numZones - 1 {
        if numLists <= firstListInZone {
          return InvalidArgument, null;
        }
        numListsInZone := numLists - firstListInZone;
      }
      PerZoneBounds(numLists, numZones);
      if listsPerZone == 0 {
        return InvalidArgument, null;
      }
      var zone := new DeltaIndexZone(zoneSize, firstListInZone, numListsInZone, tag, format);
      NewFlags(zone);
      zones, memories := zones + [zone], memories + [zone.zone];
    }
    var lists := new ZonedIndex(memories, numLists, tag);
    index := new ZonedDeltaIndex(zones, lists, format);
    status := Success;
    NewIsBalanced(index);
    forall z | 0 <= z < numZones
      ensures index.HasZone(z) && index.lists.HasPart(z) &&
        zones[z].entries == PartOf(seq(numLists, _ => []), numZones, z)
      ensures index.zones[z].Valid() && memories[z].memory.Length == zoneSize && !memories[z].writing
    {
      assert NewZone(zones[z], memories[z], format, numLists, numZones, z, zoneSize, tag);
    }
  }

  /** A new zone with its part of the lists. */
  ghost predicate NewZone(zone: DeltaIndexZone, memory: Zone, format: Format, numLists: nat, numZones: nat, z: nat,
      zoneSize: nat, tag: char)
    requires z < numZones
    reads zone, zone.zone, zone.zone.memory
  {
    && zone.Valid() && zone.zone == memory && zone.format == format && memory.tag == tag &&
        memory.memory.Length == zoneSize
    && memory.firstList == FirstList(numLists, numZones, z) && !zone.zone.writing
    && zone.recordSkew == zone.collisionSkew == 0 && |zone.zone.flags| == |zone.entries|
    && (forall k :: 0 <= k < |zone.entries| ==> zone.entries[k] == [])
    && (EnoughLists(numLists, numZones) ==> |zone.entries| == ListsInZone(numLists, numZones, z))
  }

  lemma FirstIs(numLists: nat, numZones: nat, z: nat)
    requires numZones > 0
    ensures FirstList(numLists, numZones, z) == z * ListsPerZone(numLists, numZones)
  {
  }

  lemma NewFlags(zone: DeltaIndexZone)
    requires zone.Valid()
    ensures |zone.zone.flags| == |zone.entries|
  {
  }

  lemma NewIsBalanced(index: ZonedDeltaIndex)
    requires forall z :: 0 <= z < |index.zones| ==> index.zones[z].recordSkew == index.zones[z].collisionSkew == 0
    ensures index.Balanced()
  {
    ZeroSum(index.RecordSkews());
    ZeroSum(index.CollisionSkews());
  }

  lemma {:induction false} ZeroSum(xs: seq<int>)
    requires forall k :: 0 <= k < |xs| ==> xs[k] == 0
    ensures Sum(xs) == 0
  {
    if xs != [] {
      ZeroSum(xs[..|xs| - 1]);
    }
  }

  /** Every index has some entries. */
  lemma SomeEntries(index: ZonedDeltaIndex) returns (whole: seq<seq<Entry>>)
    requires index.Valid()
    ensures index.HasEntries(whole)
  {
    hide FirstList, ListsInZone, EnoughLists, IsFormat, Records, Collisions, AllGood;
    var n, m := index.lists.numLists, |index.zones|;
    var parts := seq(m, z requires 0 <= z < m reads index.zones => index.zones[z].entries);
    forall z | 0 <= z < m
      ensures |parts[z]| == ListsInZone(n, m, z)
    {
      assert index.HasZone(z) && index.lists.HasPart(z) && index.zones[z].Valid();
    }
    whole := Joined(parts, n);
  }

  /** Parts of the right lengths make up a whole. */
  lemma Joined<T>(parts: seq<seq<T>>, numLists: nat) returns (whole: seq<T>)
    requires |parts| > 0 && EnoughLists(numLists, |parts|)
    requires forall z :: 0 <= z < |parts| ==> |parts[z]| == ListsInZone(numLists, |parts|, z)
    ensures |whole| == numLists && forall z :: 0 <= z < |parts| ==> PartOf(whole, |parts|, z) == parts[z]
  {
    hide FirstList, ListsInZone, EnoughLists, ZoneOf;
    var m := |parts|;
    forall k | 0 <= k < numLists
      ensures IsAt(parts, numLists, k)
    {
      RoutedToItsZone(numLists, m, k);
    }
    whole := seq(numLists, k requires 0 <= k < numLists && IsAt(parts, numLists, k) => ElementAt(parts, numLists, k));
    forall z | 0 <= z < m
      ensures PartOf(whole, m, z) == parts[z]
    {
      PartInside(numLists, m, z);
      forall j | 0 <= j < |parts[z]|
        ensures PartOf(whole, m, z)[j] == parts[z][j]
      {
        RoutedToItsZone(numLists, m, FirstList(numLists, m, z) + j);
        OnlyItsZone(numLists, m, FirstList(numLists, m, z) + j, z);
      }
    }
  }

  ghost predicate IsAt<T>(parts: seq<seq<T>>, numLists: nat, k: nat)
    requires |parts| > 0
  {
    && ListsPerZone(numLists, |parts|) > 0 && ZoneOf(numLists, |parts|, k) < |parts|
    && var z := ZoneOf(numLists, |parts|, k);
       FirstList(numLists, |parts|, z) <= k < FirstList(numLists, |parts|, z) + |parts[z]|
  }

  ghost function ElementAt<T>(parts: seq<seq<T>>, numLists: nat, k: nat): T
    requires |parts| > 0 && IsAt(parts, numLists, k)
  {
    var z := ZoneOf(numLists, |parts|, k);
    parts[z][k - FirstList(numLists, |parts|, z)]
  }

  /** Begin to save every zone. */
  method StartSaving(index: ZonedDeltaIndex) returns (headers: seq<SaveHeader>)
    requires index.Valid() && index.NoneWriting()
    modifies index.lists.zones`flags, index.lists.zones`numTransfers, index.lists.zones`writing,
      index.lists.zones`written, index.lists.zones`image
    ensures index.Valid() && |headers| == |index.zones|
    ensures forall k :: 0 <= k < |index.zones| ==> index.zones[k].zone.writing && StartedZone(index, headers[k], k)
  {
    hide FirstList, ListsInZone, EnoughLists, ListCode, WellFormed, IsFormat, Records, Collisions, AreLists,
      DeltaIndexZone.Valid, HeaderOf;
    headers := [];
    forall k | 0 <= k < |index.zones|
      ensures !index.zones[k].zone.writing
    {
      assert index.HasZone(k);
    }
    for z := 0 to |index.zones|
      invariant index.Valid() && |headers| == z
      invariant forall k :: z <= k < |index.zones| ==> !index.zones[k].zone.writing
      invariant forall k :: 0 <= k < z ==> index.zones[k].zone.writing && StartedZone(index, headers[k], k)
    {
      OwnZone(index, z);
      var header := index.StartSavingZone(z);
      headers := headers + [header];
    }
  }

  lemma OwnZone(index: ZonedDeltaIndex, z: nat)
    requires index.Shape() && z < |index.zones|
    ensures index.zones[z].zone in index.lists.zones
    ensures forall k :: 0 <= k < |index.zones| && k != z ==> index.zones[k].zone != index.zones[z].zone
  {
    hide FirstList, ListsInZone, EnoughLists, IsFormat;
    assert index.HasZone(z);
    forall k | 0 <= k < |index.zones| && k != z
      ensures index.zones[k].zone != index.zones[z].zone
    {
      assert index.HasZone(k);
    }
  }

  /** Finish the saves of all zones. Whatever the lists have become, the files are a save
      of what they were when the save of their zone began. */
  method FinishSaving(index: ZonedDeltaIndex, headers: seq<SaveHeader>) returns (files: seq<SaveFile>)
    requires index.Valid() && |headers| == |index.zones|
    requires forall k :: 0 <= k < |index.zones| ==> index.zones[k].zone.writing
    modifies index.lists.zones`flags, index.lists.zones`numTransfers, index.lists.zones`writing,
      index.lists.zones`written
    ensures index.Valid() && index.NoneWriting() && |files| == |index.zones|
    ensures forall k :: 0 <= k < |index.zones| ==> FinishedZone(index, headers[k], files[k], k)
  {
    hide FirstList, ListsInZone, EnoughLists, ListCode, WellFormed, IsFormat, Records, Collisions, Complete, AreLists,
      DeltaIndexZone.Valid;
    files := [];
    for z := 0 to |index.zones|
      invariant index.Valid() && |files| == z
      invariant forall k :: 0 <= k < z ==> !index.zones[k].zone.writing && FinishedZone(index, headers[k], files[k], k)
      invariant forall k :: z <= k < |index.zones| ==> index.zones[k].zone.writing
    {
      OwnZone(index, z);
      var status, records := index.FinishSavingZone(z);
      files := files + [SaveFile(headers[z], records)];
    }
    forall k | 0 <= k < |index.zones|
      ensures !index.lists.zones[k].writing
    {
      assert index.HasZone(k);
    }
  }

  /** The file of a zone has its header and all lists of its image. */
  ghost predicate FinishedZone(index: ZonedDeltaIndex, header: SaveHeader, file: SaveFile, z: nat)
    reads index.zones, set z | z in index.zones :: z.zone
  {
    && z < |index.zones| && file.header == header
    && Complete(index.lists.tag, FirstList(index.lists.numLists, |index.zones|, z), file.records,
        index.zones[z].zone.image)
  }

  /** Save a whole index. */
  method Save(index: ZonedDeltaIndex, ghost whole: seq<seq<Entry>>) returns (files: seq<SaveFile>)
    requires index.Valid() && index.NoneWriting() && index.Balanced() && index.HasEntries(whole)
    modifies index.lists.zones`flags, index.lists.zones`numTransfers, index.lists.zones`writing,
      index.lists.zones`written, index.lists.zones`image
    ensures index.Valid() && index.NoneWriting()
    ensures IsSaveOf(index.lists.tag, index.format, files, whole, index.RecordSkews(), index.CollisionSkews())
  {
    hide FirstList, ListsInZone, EnoughLists, ListCode, WellFormed, IsFormat, Records, Collisions, Complete, Sum,
      AreLists,
      DeltaIndexZone.Valid, HeaderOf;
    var headers := StartSaving(index);
    files := FinishSaving(index, headers);
    forall z | 0 <= z < |index.zones|
      ensures AreLists(index.format, PartOf(whole, |index.zones|, z))
      ensures IsFileOf(index.lists.tag, index.format, files[z], whole, |index.zones|, z, index.RecordSkews()[z],
        index.CollisionSkews()[z])
    {
      assert StartedZone(index, headers[z], z) && FinishedZone(index, headers[z], files[z], z);
      ZoneCounts(index.zones[z]);
    }
    PartsAreLists(index.format, whole, |index.zones|);
  }

  /** What the files of a save, in any order, are to an index that reads them. */
  lemma SavedFacts(tag: char, f: Format, files: seq<SaveFile>, saved: seq<SaveFile>, whole: seq<seq<Entry>>,
      recordSkews: seq<int>, collisionSkews: seq<int>)
    requires IsFormat(f) && f.coding.incrKeys > 0 && IsSaveOf(tag, f, saved, whole, recordSkews, collisionSkews)
    requires multiset(files) == multiset(saved)
    ensures forall i :: 0 <= i < |files| ==> AreSmall(files[i].header.sizes)
    ensures IsMatchingSet(HeadersOf(files), HeadersOf(saved), |whole|)
    ensures AllSizes(HeadersOf(saved)) == SizesOf(f, whole) && AreSizes(SizesOf(f, whole), Codes(f, whole))
    ensures Complete(tag, 0, WholeStream(files), Codes(f, whole))
    ensures AreRecords(WholeStream(files)) && Agrees(WholeStream(files), Codes(f, whole))
    ensures AllRecords(HeadersOf(files)) % UINT64_RANGE == Records(whole)
    ensures AllCollisions(HeadersOf(files)) % UINT64_RANGE == Collisions(whole)
  {
    hide IsSaveOf, IsSave, Complete, Records, Collisions, AllRecords, AllCollisions, AllSizes, WholeStream, WholeImage,
      IsMatchingSet, AreSizes, Agrees, IsFormat, SizesOf;
    SaveOfIsSave(tag, f, saved, whole, recordSkews, collisionSkews);
    var parts := Parts(Codes(f, whole), |saved|);
    SavedMatch(tag, saved, parts, files);
    SavedComplete(tag, saved, parts, files);
    CompleteAgrees(tag, WholeStream(files), Codes(f, whole));
    SizesOfCodes(f, whole, AllSizes(HeadersOf(saved)));
    Permuted(files, saved);
  }

  /** A complete save is restored if and only if every zone waits for its lists. */
  lemma AcceptedExactly(lists: ZonedIndex, stream: seq<SavedList>, image: seq<seq<bool>>, awaiting: seq<bool>)
    requires |awaiting| == |lists.zones| > 0 && EnoughLists(lists.numLists, |lists.zones|) && |image| == lists.numLists
    requires Complete(lists.tag, 0, stream, image)
    requires forall z :: 0 <= z < |awaiting| && !awaiting[z] ==> ZoneHasBits(lists, image, z)
    ensures (forall z :: 0 <= z < |awaiting| ==> awaiting[z]) <==>
      && (forall i :: 0 <= i < |stream| ==> lists.IsAcceptable(stream, image, awaiting, i))
      && (forall z :: 0 <= z < |awaiting| && awaiting[z] ==> lists.PartArrived(stream, image, z))
  {
    hide FirstList, ListsInZone, EnoughLists, ZoneOf, Complete, IsWanted, Holds, IsWritten, HasArrived;
    CompleteAgrees(lists.tag, stream, image);
    forall i | 0 <= i < |stream|
      ensures (forall z :: 0 <= z < |awaiting| ==> awaiting[z]) ==> lists.IsAcceptable(stream, image, awaiting, i)
    {
      CompleteRecord(lists.tag, stream, image, i);
      RoutedToItsZone(lists.numLists, |lists.zones|, stream[i].index);
    }
    if z :| 0 <= z < |awaiting| && !awaiting[z] {
      assert ZoneHasBits(lists, image, z);
      var j :| 0 <= j < ListsInZone(lists.numLists, |lists.zones|, z) &&
        HasBits(image, FirstList(lists.numLists, |lists.zones|, z), j);
      var i := RecordOf(lists, stream, image, z, j);
      assert !lists.IsAcceptable(stream, image, awaiting, i);
    }
  }

  ghost predicate ZoneHasBits(lists: ZonedIndex, image: seq<seq<bool>>, z: nat)
    requires z < |lists.zones| && EnoughLists(lists.numLists, |lists.zones|)
  {
    exists j :: 0 <= j < ListsInZone(lists.numLists, |lists.zones|, z) &&
      HasBits(image, FirstList(lists.numLists, |lists.zones|, z), j)
  }

  /** The record of a list of a zone. */
  lemma RecordOf(lists: ZonedIndex, stream: seq<SavedList>, image: seq<seq<bool>>, z: nat, j: nat) returns (i: nat)
    requires z < |lists.zones| && EnoughLists(lists.numLists, |lists.zones|) && |image| == lists.numLists
    requires Complete(lists.tag, 0, stream, image) && j < ListsInZone(lists.numLists, |lists.zones|, z)
    requires HasBits(image, FirstList(lists.numLists, |lists.zones|, z), j)
    ensures i < |stream| && ListsPerZone(lists.numLists, |lists.zones|) > 0 &&
      ZoneOf(lists.numLists, |lists.zones|, stream[i].index) == z
  {
    hide FirstList, ListsInZone, EnoughLists, ZoneOf, Complete;
    var k := FirstList(lists.numLists, |lists.zones|, z) + j;
    CompleteHas(lists.tag, stream, image, k);
    i :| 0 <= i < |stream| && stream[i].index == k;
    RoutedToItsZone(lists.numLists, |lists.zones|, k);
    OnlyItsZone(lists.numLists, |lists.zones|, k, z);
  }

  /** The zones of an index have been given the lists whole, and the first zone the counts. */
  method Adopt(index: ZonedDeltaIndex, ghost whole: seq<seq<Entry>>, recordCount: nat, collisionCount: nat)
    requires index.Shape() && index.NoneWriting() && |whole| == index.lists.numLists && AreLists(index.format, whole)
    requires recordCount == Records(whole) && collisionCount == Collisions(whole)
    requires forall z :: 0 <= z < |index.lists.zones| ==>
      index.lists.zones[z].TransfersDone() && HoldsPart(index.lists.zones[z], Codes(index.format, whole))
    modifies index.zones
    ensures index.Valid() && index.Balanced() && index.HasEntries(whole)
  {
    hide FirstList, ListsInZone, EnoughLists, ListCode, WellFormed, IsFormat, Records, Collisions, Sum, AreLists,
      DeltaIndexZone.Valid, HoldsPart;
    var n := |index.zones|;
    for z := 0 to n
      invariant index.Shape() && forall k :: 0 <= k < z ==>
        && index.zones[k].Valid() && index.zones[k].entries == PartOf(whole, n, k)
        && index.zones[k].recordSkew == (if k == 0 then Records(whole) else 0) - Records(PartOf(whole, n, k))
        && index.zones[k].collisionSkew == (if k == 0 then Collisions(whole) else 0) - Collisions(PartOf(whole, n, k))
    {
      OwnZone(index, z);
      var zone := index.zones[z];
      zone.recordCount, zone.collisionCount := if z == 0 then recordCount else 0, if z == 0 then collisionCount else 0;
      ghost var part := PartOf(whole, n, z);
      zone.entries := part;
      zone.recordSkew, zone.collisionSkew := zone.recordCount - Records(part), zone.collisionCount - Collisions(part);
      assert index.HasZone(z) && index.lists.HasPart(z);
      AdoptedIsGood(index.format, whole, n, z, zone);
    }
    SkewsCancel(whole, index.RecordSkews(), index.CollisionSkews(), n);
    assert index.RecordSkews()[..n] == index.RecordSkews() && index.CollisionSkews()[..n] == index.CollisionSkews();
    AllBefore(|whole|, n);
    assert whole[..|whole|] == whole;
  }

  /** A zone that holds its part of the lists has them as its entries. */
  lemma AdoptedIsGood(f: Format, whole: seq<seq<Entry>>, numZones: nat, z: nat, zone: DeltaIndexZone)
    requires IsFormat(f) && f.coding.incrKeys > 0 && z < numZones && EnoughLists(|whole|, numZones) &&
      AreLists(f, whole)
    requires zone.format == f && zone.entries == PartOf(whole, numZones, z) && HoldsPart(zone.zone, Codes(f, whole))
    requires zone.zone.firstList == FirstList(|whole|, numZones, z) &&
      |zone.zone.flags| == ListsInZone(|whole|, numZones, z)
    requires zone.zone.TransfersDone()
    requires zone.recordCount == Records(zone.entries) + zone.recordSkew
    requires zone.collisionCount == Collisions(zone.entries) + zone.collisionSkew
    ensures zone.Valid()
  {
    hide FirstList, ListsInZone, EnoughLists, ListCode, WellFormed, IsFormat, Records, Collisions, WellPlaced, Contents,
      Snapshot;
    FlagsCounted(zone.zone);
    forall k | 0 <= k < |zone.entries|
      ensures GoodList(f, zone.entries[k], zone.zone.Bits()[k + 1], zone.zone.lists[k + 1])
    {
      assert HoldsList(zone.zone, Codes(f, whole), k);
      RememberedStart(f, zone.entries[k]);
    }
  }

  /** What the first zone counts too much the others count too little. */
  lemma {:induction false} SkewsCancel(whole: seq<seq<Entry>>, recordSkews: seq<int>, collisionSkews: seq<int>, n: nat)
    requires n <= |recordSkews| == |collisionSkews| && |recordSkews| > 0 && EnoughLists(|whole|, |recordSkews|)
    requires forall k :: 0 <= k < |recordSkews| ==>
      && recordSkews[k] == (if k == 0 then Records(whole) else 0) - Records(PartOf(whole, |recordSkews|, k))
      && collisionSkews[k] == (if k == 0 then Collisions(whole) else 0) - Collisions(PartOf(whole, |recordSkews|, k))
    ensures var before := ListsBefore(|whole|, |recordSkews|, n);
      && before <= |whole|
      && Sum(recordSkews[..n]) == (if n == 0 then 0 else Records(whole)) - Records(whole[..before])
      && Sum(collisionSkews[..n]) == (if n == 0 then 0 else Collisions(whole)) - Collisions(whole[..before])
  {
    hide FirstList, ListsInZone, EnoughLists, ListsBefore, Records, Collisions, Sum;
    var m := |recordSkews|;
    if n == 0 {
      BeforeFirst(|whole|, m);
      assert whole[..0] == [] && recordSkews[..0] == [] && collisionSkews[..0] == [];
      NothingCounted();
    } else {
      SkewsCancel(whole, recordSkews, collisionSkews, n - 1);
      BeforeNext(|whole|, m, n - 1);
      JoinTwo(whole, ListsBefore(|whole|, m, n - 1), ListsBefore(|whole|, m, n));
      CountsJoin(whole[..ListsBefore(|whole|, m, n - 1)], PartOf(whole, m, n - 1));
      SumMore(recordSkews, n - 1);
      SumMore(collisionSkews, n - 1);
    }
  }

  /** Restore an index from the files of a save, which may come in any order and from an
      index with any number of zones. It succeeds if and only if every zone has room
      for its lists, and then every list has its entries. */
  method Restore(index: ZonedDeltaIndex, files: seq<SaveFile>, ghost saved: seq<SaveFile>, ghost whole: seq<seq<Entry>>,
      ghost recordSkews: seq<int>, ghost collisionSkews: seq<int>)
    returns (status: Status)
    requires index.Valid() && index.NoneWriting() && |whole| == index.lists.numLists &&
      multiset(files) == multiset(saved)
    requires IsSaveOf(index.lists.tag, index.format, saved, whole, recordSkews, collisionSkews)
    modifies index.zones, index.lists.zones`lists, index.lists.zones`flags, index.lists.zones`numTransfers,
      set z | z in index.lists.zones :: z.memory
    ensures index.Valid() && index.NoneWriting() && index.Balanced()
    ensures status.Success? <==> index.HasRoomFor(whole)
    ensures status.Success? ==> index.HasEntries(whole)
    ensures !status.Success? ==> status.CorruptComponent? && index.HasEntries(seq(|whole|, _ => []))
  {
    hide FirstList, ListsInZone, EnoughLists, ListCode, WellFormed, IsFormat, Records, Collisions, AreLists,
      DeltaIndexZone.Valid, IsSaveOf, Zone.Valid, HasRoom, HoldsPart, Zone.Empty, SizesOf;
    SavedLists(index.lists.tag, index.format, saved, whole, recordSkews, collisionSkews);
    ZonesIdle(index);
    var recordCount, collisionCount;
    status, recordCount, collisionCount :=
      RestoreBits(index.lists, index.format, files, saved, whole, recordSkews, collisionSkews);
    if status.Success? {
      Adopt(index, whole, recordCount, collisionCount);
    } else {
      EmptyHoldsAll(index, |whole|);
      Adopt(index, seq(|whole|, _ => []), 0, 0);
    }
  }

  /** Restore the memory of an index from the files of a save. */
  method RestoreBits(lists: ZonedIndex, f: Format, files: seq<SaveFile>, ghost saved: seq<SaveFile>,
      ghost whole: seq<seq<Entry>>, ghost recordSkews: seq<int>, ghost collisionSkews: seq<int>)
    returns (status: Status, recordCount: nat, collisionCount: nat)
    requires lists.Divided() && forall z :: 0 <= z < |lists.zones| ==> lists.Idle(z)
    requires IsFormat(f) && f.coding.incrKeys > 0 && |whole| == lists.numLists && multiset(files) == multiset(saved)
    requires IsSaveOf(lists.tag, f, saved, whole, recordSkews, collisionSkews)
    modifies lists.zones`lists, lists.zones`flags, lists.zones`numTransfers, set z | z in lists.zones :: z.memory
    ensures lists.Divided() && recordCount == Records(whole) && collisionCount == Collisions(whole)
    ensures status.Success? <==> forall z :: 0 <= z < |lists.zones| ==> lists.Fits(z, SizesOf(f, whole))
    ensures status.Success? ==> forall z :: 0 <= z < |lists.zones| ==>
      lists.zones[z].TransfersDone() && HoldsPart(lists.zones[z], Codes(f, whole))
    ensures !status.Success? ==>
      status.CorruptComponent? && forall z :: 0 <= z < |lists.zones| ==> lists.Idle(z) && lists.zones[z].Empty()
  {
    hide FirstList, ListsInZone, EnoughLists, ListCode, WellFormed, IsFormat, Records, Collisions, Complete, IsSaveOf,
      Zone.Valid, HasRoom, AllRecords, AllCollisions, Awaits, TooSmall, HoldsPart, Agrees, Zone.Empty, IsMatchingSet,
      AllSizes, WholeStream, AreSizes, SizesOf;
    ghost var image, sizes := Codes(f, whole), SizesOf(f, whole);
    SavedFacts(lists.tag, f, files, saved, whole, recordSkews, collisionSkews);
    status, recordCount, collisionCount := lists.StartRestoring(HeadersOf(files), image);
    ghost var awaiting := seq(|lists.zones|, z requires 0 <= z < |lists.zones| => lists.Fits(z, sizes));
    forall z | 0 <= z < |awaiting|
      ensures if awaiting[z] then Awaits(lists.zones[z], image, []) else TooSmall(lists.zones[z], image)
      ensures !awaiting[z] ==> ZoneHasBits(lists, image, z)
    {
      assert lists.HasPart(z);
      if !awaiting[z] {
        SmallHasBits(lists, image, z);
      }
    }
    AcceptedExactly(lists, WholeStream(files), image, awaiting);
    assert forall z :: 0 <= z < |awaiting| ==> awaiting[z] == lists.Fits(z, sizes);
    status := lists.RestoreLists(WholeStream(files), image, awaiting);
  }

  lemma SavedLists(tag: char, f: Format, saved: seq<SaveFile>, whole: seq<seq<Entry>>, recordSkews: seq<int>,
      collisionSkews: seq<int>)
    requires f.coding.incrKeys > 0 && IsSaveOf(tag, f, saved, whole, recordSkews, collisionSkews)
    ensures AreLists(f, whole)
  {
  }

  lemma SmallHasBits(lists: ZonedIndex, image: seq<seq<bool>>, z: nat)
    requires z < |lists.zones| && EnoughLists(lists.numLists, |lists.zones|) && lists.HasPart(z)
    requires TooSmall(lists.zones[z], image)
    ensures ZoneHasBits(lists, image, z)
  {
    hide FirstList, ListsInZone, EnoughLists;
  }

  /** Empty lists hold an image of empty lists. */
  lemma EmptyHoldsAll(index: ZonedDeltaIndex, numLists: nat)
    requires index.Shape() && index.NoneWriting() && numLists == index.lists.numLists
    requires forall z :: 0 <= z < |index.lists.zones| ==> index.lists.Idle(z) && index.lists.zones[z].Empty()
    ensures var none := seq(numLists, _ => []);
      && AreLists(index.format, none) && Records(none) == 0 && Collisions(none) == 0
      && forall z :: 0 <= z < |index.lists.zones| ==>
           index.lists.zones[z].TransfersDone() && HoldsPart(index.lists.zones[z], Codes(index.format, none))
  {
    hide FirstList, ListsInZone, EnoughLists, IsFormat, Zone.Valid, HoldsPart, Records, Collisions;
    var none: seq<seq<Entry>> := seq(numLists, _ => []);
    DeltaIndex.NoCounts(none);
    forall z | 0 <= z < |index.lists.zones|
      ensures index.lists.zones[z].TransfersDone() && HoldsPart(index.lists.zones[z], Codes(index.format, none))
    {
      assert index.lists.HasPart(z) && index.lists.Idle(z);
      PartInside(numLists, |index.lists.zones|, z);
      EmptyHoldsPart(index.lists.zones[z], Codes(index.format, none));
    }
  }

  lemma EmptyHoldsPart(zone: Zone, image: seq<seq<bool>>)
    requires zone.Valid() && zone.Empty() && zone.firstList + |zone.flags| <= |image|
    requires forall k :: 0 <= k < |image| ==> image[k] == []
    ensures HoldsPart(zone, image)
  {
    hide WellPlaced, Snapshot;
    forall j | 0 <= j < |zone.flags|
      ensures HoldsList(zone, image, j)
    {
      WellPlacedList(zone.lists, zone.memory.Length, j + 1);
      assert |zone.Bits()[j + 1]| == zone.lists[j + 1].size;
    }
  }

  /** Saving an index and restoring it into another, with another number of zones, moves
      every entry of every list, if the other one has room. */
  method SaveAndRestore(a: ZonedDeltaIndex, b: ZonedDeltaIndex) returns (status: Status, ghost whole: seq<seq<Entry>>)
    requires a.Valid() && a.NoneWriting() && a.Balanced()
    requires b.Valid() && b.NoneWriting() && b.lists.numLists == a.lists.numLists
    requires b.lists.tag == a.lists.tag && b.format == a.format && Apart(a, b)
    modifies a.lists.zones`flags, a.lists.zones`numTransfers, a.lists.zones`writing, a.lists.zones`written,
      a.lists.zones`image, b.zones, b.lists.zones`lists, b.lists.zones`flags, b.lists.zones`numTransfers,
      set z | z in b.lists.zones :: z.memory
    ensures old(a.HasEntries(whole)) && a.Valid() && a.NoneWriting() && a.HasEntries(whole)
    ensures b.Valid() && b.NoneWriting() && b.Balanced()
    ensures status.Success? <==> b.HasRoomFor(whole)
    ensures status.Success? ==> b.HasEntries(whole)
  {
    hide *;
    ZonesOwn(b);
    whole := SomeEntries(a);
    ghost var recordSkews, collisionSkews;
    var files;
    files, recordSkews, collisionSkews := SaveBeside(a, b, whole);
    status := RestoreBeside(a, b, files, whole, recordSkews, collisionSkews);
  }

  /** Saving an index does not touch another. */
  method SaveBeside(a: ZonedDeltaIndex, b: ZonedDeltaIndex, ghost whole: seq<seq<Entry>>)
    returns (files: seq<SaveFile>, ghost recordSkews: seq<int>, ghost collisionSkews: seq<int>)
    requires a.Valid() && a.NoneWriting() && a.Balanced() && a.HasEntries(whole)
    requires b.Valid() && b.NoneWriting() && Apart(a, b)
    modifies a.lists.zones`flags, a.lists.zones`numTransfers, a.lists.zones`writing, a.lists.zones`written,
      a.lists.zones`image
    ensures a.Valid() && a.NoneWriting() && a.HasEntries(whole) && |whole| == a.lists.numLists
    ensures b.Valid() && b.NoneWriting()
    ensures IsSaveOf(a.lists.tag, a.format, files, whole, recordSkews, collisionSkews)
  {
    hide FirstList, ListsInZone, EnoughLists, IsFormat, IsSaveOf, DeltaIndexZone.Valid, SizesOf, PartOf, Sum, HasRoom;
    Disjoint(a, b);
    ZonesOwn(b);
    files := Save(a, whole);
    recordSkews, collisionSkews := a.RecordSkews(), a.CollisionSkews();
    assert forall x :: x in b.lists.zones ==> x !in a.lists.zones;
    assert b.Shape();
    assert forall z :: 0 <= z < |b.zones| ==> b.zones[z].Valid();
    forall z | 0 <= z < |a.zones|
      ensures a.zones[z].entries == PartOf(whole, |a.zones|, z)
    {
      assert a.zones[z] in a.zones;
    }
  }

  /** Restoring an index does not touch another. */
  method RestoreBeside(a: ZonedDeltaIndex, b: ZonedDeltaIndex, files: seq<SaveFile>, ghost whole: seq<seq<Entry>>,
      ghost recordSkews: seq<int>, ghost collisionSkews: seq<int>)
    returns (status: Status)
    requires a.Valid() && a.NoneWriting() && a.HasEntries(whole) && Apart(a, b)
    requires b.Valid() && b.NoneWriting() && b.lists.numLists == |whole|
    requires IsSaveOf(b.lists.tag, b.format, files, whole, recordSkews, collisionSkews)
    modifies b.zones, b.lists.zones`lists, b.lists.zones`flags, b.lists.zones`numTransfers,
      set z | z in b.lists.zones :: z.memory
    ensures a.Valid() && a.NoneWriting() && a.HasEntries(whole)
    ensures b.Valid() && b.NoneWriting() && b.Balanced()
    ensures status.Success? <==> b.HasRoomFor(whole)
    ensures status.Success? ==> b.HasEntries(whole)
  {
    hide FirstList, ListsInZone, EnoughLists, IsFormat, IsSaveOf, DeltaIndexZone.Valid, SizesOf, PartOf, Sum, HasRoom;
    Disjoint(a, b);
    ZonesOwn(a);
    status := Restore(b, files, files, whole, recordSkews, collisionSkews);
    assert forall x :: x in a.zones ==> x !in b.zones;
    assert forall x :: x in a.lists.zones ==> x !in b.lists.zones;
    forall z | 0 <= z < |a.zones|
      ensures a.zones[z].entries == PartOf(whole, |a.zones|, z)
    {
      assert a.zones[z] in a.zones;
    }
    assert a.Shape();
    assert forall z :: 0 <= z < |a.zones| ==> a.zones[z].Valid();
  }

  lemma Disjoint(a: ZonedDeltaIndex, b: ZonedDeltaIndex)
    requires Apart(a, b)
    ensures forall x, y :: x in a.zones && y in b.zones ==> x != y
    ensures forall x, y :: x in a.lists.zones && y in b.lists.zones ==> x != y && x.memory != y.memory
  {
  }

  lemma ZonesOwn(index: ZonedDeltaIndex)
    requires index.Valid()
    ensures index.Shape() && forall x :: x in index.zones ==> x.zone in index.lists.zones
  {
    hide FirstList, ListsInZone, EnoughLists, IsFormat, DeltaIndexZone.Valid;
    forall x | x in index.zones
      ensures x.zone in index.lists.zones
    {
      var z :| 0 <= z < |index.zones| && index.zones[z] == x;
      assert index.HasZone(z);
    }
  }

  /** The two indexes share no memory. */
  ghost predicate Apart(a: ZonedDeltaIndex, b: ZonedDeltaIndex) {
    && (forall x, y :: x in a.zones && y in b.zones ==> x != y)
    && (forall x, y :: x in a.lists.zones && y in b.lists.zones ==> x != y && x.memory != y.memory)
  }

  lemma SizesOfCodes(f: Format, whole: seq<seq<Entry>>, sizes: seq<nat>)
    requires f.coding.incrKeys > 0 && AreSizes(sizes, Codes(f, whole))
    ensures sizes == SizesOf(f, whole)
  {
    hide ListCode;
  }

  lemma ZonesIdle(index: ZonedDeltaIndex)
    requires index.Valid() && index.NoneWriting()
    ensures index.lists.Divided() && forall z :: 0 <= z < |index.lists.zones| ==> index.lists.Idle(z)
  {
    hide Zone.Valid, FirstList, ListsInZone, EnoughLists, AllGood, Records, Collisions, IsFormat;
    forall z | 0 <= z < |index.lists.zones|
      ensures index.lists.Idle(z)
    {
      assert index.HasZone(z) && index.zones[z].Valid();
    }
  }

  /** A zone whose save has begun with this header. */
  ghost predicate StartedZone(index: ZonedDeltaIndex, header: SaveHeader, z: nat)
    reads index.zones, set z | z in index.zones :: z.zone
  {
    && 0 < |index.zones| && z < |index.zones| && index.format.coding.incrKeys > 0
    && AreLists(index.format, index.zones[z].entries)
    && index.zones[z].zone.image == Codes(index.format, index.zones[z].entries)
    && header == HeaderOf(index.format, index.zones[z].entries, z, |index.zones|,
      FirstList(index.lists.numLists, |index.zones|, z), index.zones[z].recordCount, index.zones[z].collisionCount)
  }

  lemma ZoneCounts(index: DeltaIndexZone)
    requires index.Valid()
    ensures index.recordCount == Records(index.entries) + index.recordSkew
    ensures index.collisionCount == Collisions(index.entries) + index.collisionSkew
  {
  }

  lemma PartsAreLists(f: Format, whole: seq<seq<Entry>>, numZones: nat)
    requires f.coding.incrKeys > 0 && numZones > 0 && EnoughLists(|whole|, numZones)
    requires forall z :: 0 <= z < numZones ==> AreLists(f, PartOf(whole, numZones, z))
    ensures AreLists(f, whole)
  {
    hide FirstList, ListsInZone, EnoughLists, ListCode, WellFormed, ZoneOf;
    forall k | 0 <= k < |whole|
      ensures WellFormed(f, whole[k]) && |ListCode(f, whole[k])| <= UINT16_MAX
    {
      RoutedToItsZone(|whole|, numZones, k);
      var z := ZoneOf(|whole|, numZones, k);
      assert PartOf(whole, numZones, z)[k - FirstList(|whole|, numZones, z)] == whole[k];
    }
  }

  /** The sizes of the lists of a zone are those of the codes of their entries. */
  lemma SizesAreCodes(index: DeltaIndexZone, sizes: seq<nat>)
    requires index.Valid() && |sizes| == |index.zone.lists| - 2
    requires forall k :: 0 <= k < |sizes| ==> sizes[k] == index.zone.lists[k + 1].size
    ensures index.format.coding.incrKeys > 0 && sizes == SizesOf(index.format, index.entries)
    ensures AreLists(index.format, index.entries)
  {
    hide ListCode, WellFormed, Snapshot, WellPlaced, Remembered, IsFormat, Records, Collisions;
    forall k | 0 <= k < |sizes|
      ensures sizes[k] == |ListCode(index.format, index.entries[k])| <= UINT16_MAX &&
        WellFormed(index.format, index.entries[k])
    {
      AllGoodParts(index.format, index.entries, index.zone.Bits(), index.zone.lists, k);
      WellPlacedList(index.zone.lists, index.zone.memory.Length, k + 1);
    }
  }

  lemma ImageIsCodes(index: DeltaIndexZone)
    requires index.DataValid() && index.zone.writing && |index.zone.image| == |index.zone.lists| - 2
    requires forall k :: 0 <= k < |index.zone.image| ==> index.zone.image[k] == index.zone.Bits()[k + 1]
    ensures index.zone.image == Codes(index.format, index.entries)
  {
    hide ListCode, WellFormed, Snapshot, WellPlaced, Contents, Remembered, IsFormat;
    forall k | 0 <= k < |index.zone.image|
      ensures index.zone.image[k] == ListCode(index.format, index.entries[k])
    {
      AllGoodParts(index.format, index.entries, index.zone.Bits(), index.zone.lists, k);
    }
  }
}
