/** Runs of a master index zone that end in a state in which its invariant fails, and in
    a lookup that reports the wrong chapter (uds/masterIndex005.c). The zones have one
    list and two chapter bits, and index up to four chapters. */
module MasterIndexRuns {
  import opened Numbers
  import opened DeltaCode
  import opened DeltaLayout
  import opened DeltaEntries
  import opened DeltaSearch
  import opened DeltaIndexSpec
  import opened DeltaIndex
  import opened DeltaMemory
  import opened ChapterNumbers
  import opened LazyFlush
  import opened MasterIndex
  import opened UdsStatus

  const ZONE_BYTES := 64

  /** A zone with one list, without a save in progress and too small to expire chapters
      early. */
  ghost predicate IsSmall(zone: MasterIndexZone)
    reads zone, zone.index, zone.index.zone, zone.index.zone.memory
  {
    && zone.Based() && |zone.flushChapters| == 1 && zone.numChapters == 4 && zone.index.format.valueBits == 2
    && zone.index.zone.memory.Length == ZONE_BYTES && !zone.index.zone.writing && zone.maxZoneBits == UINT16_MAX
  }

  /** The list has no entries. */
  ghost predicate IsEmptyList(zone: MasterIndexZone)
    reads zone, zone.index
  {
    zone.index.entries == [[]] && zone.chapters == [[]]
  }

  /** The list has one entry of a chapter. */
  ghost predicate HasOne(zone: MasterIndexZone, chapter: nat)
    reads zone, zone.index
  {
    zone.index.entries == [[Entry(0, chapter % 4, None)]] && zone.chapters == [[chapter]]
  }

  method NewZone(format: Format) returns (zone: MasterIndexZone)
    requires IsFormat(format) && format.valueBits == 2
    ensures fresh(zone) && fresh(zone.index) && fresh(zone.index.zone) && fresh(zone.index.zone.memory)
    ensures IsSmall(zone) && zone.Valid() && IsEmptyList(zone) && zone.flushChapters == [0]
    ensures zone.virtualChapterLow == zone.virtualChapterHigh == 0
  {
    hide IsFormat;
    Four();
    zone := new MasterIndexZone(4, UINT16_MAX, 1, ZONE_BYTES, 0, 1, 'm', format);
    zone.WindowsAreBased();
  }

  lemma Four()
    ensures Pow2(2) == 4
  {
    assert Pow2(1) == 2 * Pow2(0) && Pow2(2) == 2 * Pow2(1);
  }

  /** The bits used by one list do not make chapters expire early. */
  lemma UsedIsSmall(zone: MasterIndexZone)
    requires zone.index.Valid() && |zone.index.entries| == 1
    ensures zone.index.zone.Used() <= UINT16_MAX
  {
    hide AllGood, IsFormat, WellPlaced, Contents, Records, Collisions;
    var lists := zone.index.zone.lists;
    WellPlacedList(lists, zone.index.zone.memory.Length, 1);
    OneSize(lists);
  }

  lemma OneSize(lists: seq<DeltaList>)
    requires |lists| == 3
    ensures SizeSum(lists[1..2]) == lists[1].size
  {
    assert lists[1..2] == [lists[1]] && [lists[1]][..0] == [];
  }

  /** Move the open chapter forward. */
  method Forward(zone: MasterIndexZone, chapter: nat)
    requires IsSmall(zone) && chapter > zone.virtualChapterHigh
    modifies zone, zone.index, zone.index.zone`lists, zone.index.zone`flags, zone.index.zone`numTransfers,
      zone.index.zone`written, zone.index.zone.memory
    ensures IsSmall(zone) && zone.virtualChapterHigh == chapter && (old(zone.Valid()) ==> zone.Valid())
    ensures zone.virtualChapterLow == MovedLow(old(zone.virtualChapterLow), old(zone.virtualChapterHigh), chapter, 4)
    ensures zone.index.entries == old(zone.index.entries) && zone.chapters == old(zone.chapters)
    ensures zone.flushChapters == old(zone.flushChapters)
  {
    hide DeltaIndexZone.Valid, MovedLow, AllDated, AllDates, AllMoved, Pow2, NoneAhead;
    zone.SetOpenChapter(chapter);
    UsedIsSmall(zone);
  }

  /** Look up a name whose key is 0. */
  method LookUp(zone: MasterIndexZone, name: Name) returns (rec: MasterRecord)
    requires IsSmall(zone)
    modifies zone, zone.index, zone.index.zone`lists, zone.index.zone`flags, zone.index.zone`numTransfers,
      zone.index.zone`written, zone.index.zone.memory
    ensures IsSmall(zone) && zone.Current(rec) && rec.list == 0 && rec.key == 0 && rec.name == name
    ensures zone.virtualChapterLow == old(zone.virtualChapterLow) &&
      zone.virtualChapterHigh == old(zone.virtualChapterHigh)
    ensures old(zone.Valid()) ==> zone.Valid()
    ensures old(IsEmptyList(zone)) ==> IsEmptyList(zone) && !rec.isFound
    ensures old(IsEmptyList(zone)) && old(zone.flushChapters[0]) < zone.virtualChapterLow ==>
      zone.flushChapters[0] ==
        EmptyFlush(old(zone.flushChapters[0]), zone.virtualChapterLow, zone.virtualChapterHigh, 4)
    ensures old(zone.flushChapters[0]) >= zone.virtualChapterLow ==>
      && zone.flushChapters == old(zone.flushChapters) && zone.index.entries == old(zone.index.entries) &&
          zone.chapters == old(zone.chapters)
      && (forall chapter: nat :: old(HasOne(zone, chapter)) ==>
            rec.isFound && rec.virtualChapter == ToVirtual(zone.virtualChapterLow, chapter % 4, 4) &&
              zone.ChapterOf(rec) == chapter)
  {
    hide DeltaIndexZone.Valid, AllDated, AllDates, ToVirtual, ExpiredRange, Rows, Live, EmptyFlush, Locate, At,
      NoneAhead,
      FlushFrom;
    Four();
    ghost var es, cs := zone.index.entries, zone.chapters;
    rec := zone.GetRecord(0, 0, name);
    assert zone.index.entries == [zone.index.entries[0]] && zone.chapters == [zone.chapters[0]];
    if es == [[]] && cs == [[]] {
      if old(zone.flushChapters[0]) < zone.virtualChapterLow {
        ExpiredModulus(old(zone.flushChapters[0]), zone.virtualChapterLow, 4);
        NothingFlushed(ExpiredRange(old(zone.flushChapters[0]), zone.virtualChapterLow, 4));
      }
    }
    forall chapter: nat | old(HasOne(zone, chapter)) && old(zone.flushChapters[0]) >= zone.virtualChapterLow
      ensures rec.isFound && zone.ChapterOf(rec) == chapter
      ensures rec.virtualChapter == ToVirtual(zone.virtualChapterLow, chapter % 4, 4)
    {
      OneLocated(Entry(0, chapter % 4, None), name);
    }
  }

  lemma NothingFlushed(r: Range)
    requires r.modulus > 0
    ensures FlushFrom(r, Dated([], []), 0) == Dated([], [])
  {
  }

  lemma OneLocated(e: Entry, name: Name)
    requires e.delta == 0
    ensures Locate([e], 0, name) == 0 && KeyAt([e], 0) == 0
  {
    assert [e][..0] == [];
    KeyStep([e], 0);
  }

  /** Put a record for a name that was not found in an empty list. There is room for it. */
  method PutFirst(zone: MasterIndexZone, rec: MasterRecord, chapter: nat)
    requires IsSmall(zone) && IsEmptyList(zone) && zone.Current(rec) && rec.list == 0 && rec.key == 0 && !rec.isFound
    requires zone.IsIndexed(chapter)
    modifies zone, zone.index, zone.index.zone`lists, zone.index.zone.memory
    ensures IsSmall(zone) && HasOne(zone, chapter) && zone.flushChapters == old(zone.flushChapters)
    ensures zone.virtualChapterLow == old(zone.virtualChapterLow) &&
      zone.virtualChapterHigh == old(zone.virtualChapterHigh)
    ensures old(zone.Valid()) ==> (zone.Valid() <==> zone.InWindow(0, chapter))
  {
    hide DeltaIndexZone.Valid, AllDated, AllDates, At, NoneAhead, CanGrow, PutBits;
    Four();
    zone.index.Basics();
    FirstBits(zone.index.format, chapter % 4);
    FirstDated(chapter);
    HasRoom(zone.index, zone.index.format.valueBits + zone.index.format.coding.minBits);
    var status, rec' := zone.PutRecord(rec, chapter);
    assert zone.index.entries == [zone.index.entries[0]] && zone.chapters == [zone.chapters[0]];
  }

  lemma FirstDated(chapter: nat)
    requires PutAllowed([], 0, 0, None) && PutEntry([], 0, 0, chapter % 4, None) == [Entry(0, chapter % 4, None)]
    ensures PutDated(Dated([], []), 0, 0, chapter, 4, None) == Dated([Entry(0, chapter % 4, None)], [chapter])
  {
    var none: seq<nat> := [];
    assert none[..0] + [chapter] + none[0..] == [chapter];
  }

  /** The first entry of a list takes its value bits and the shortest code. */
  lemma FirstBits(f: Format, value: nat)
    requires IsFormat(f) && f.coding.incrKeys > 0 && value < 4
    ensures PutAllowed([], 0, 0, None) && PutEntry([], 0, 0, value, None) == [Entry(0, value, None)]
    ensures PutBits(f, [], 0, 0, value, None) == f.valueBits + f.coding.minBits
  {
    hide EntryCode, IsFormat;
    FormatBasics(f);
    var none: seq<Entry> := [];
    assert none[..0] == [];
    var e := Entry(0, value, None);
    assert PutEntry([], 0, 0, value, None) == [e];
    ListCodeOne(f, e);
    EntrySize(f, e);
    ShortCode(f.coding);
  }

  lemma ShortCode(c: Coding)
    requires IsCoding(c)
    ensures |Encode(c, 0)| == c.minBits
  {
  }

  /** An empty list in a zone of its own can grow into one half of it. */
  lemma HasRoom(index: DeltaIndexZone, size: nat)
    requires index.Valid() && index.entries == [[]] && index.zone.memory.Length == ZONE_BYTES && size <= 200
    ensures CanGrow(index.zone.lists, ZONE_BYTES, 1, size)
  {
    hide IsFormat, BytesUsed;
    AllGoodParts(index.format, index.entries, index.zone.Bits(), index.zone.lists, 0);
    assert |index.zone.Bits()[1]| == index.zone.lists[1].size;
  }

  /** The open chapter goes from 5 back to 2 while the list waits for chapter 5. The
      invariant fails. A record put in chapter 2 is not flushed when that chapter
      expires, and is reported in chapter 6. */
  method GoBack(format: Format, name: Name) returns (zone: MasterIndexZone, rec: MasterRecord)
    requires IsFormat(format) && format.valueBits == 2
    ensures zone.Based() && !zone.Valid() && zone.Current(rec) && rec.isFound
    ensures zone.virtualChapterLow == 3 && zone.ChapterOf(rec) == 2 && rec.virtualChapter == 6
  {
    hide IsFormat, DeltaIndexZone.Valid, AllDated, AllDates, AllMoved, ToVirtual, Pow2;
    zone := NewZone(format);
    Forward(zone, 5);
    rec := LookUp(zone, name);
    LateFlush();
    assert zone.Valid() && zone.flushChapters == [5] && !zone.index.zone.writing;
    zone.SetOpenChapter(2);
    assert !NoneAhead([5], 2) && !zone.Valid() by { assert [5][0] > 2; }
    assert zone.index.entries == [[]] && zone.chapters == [[]];
    rec := LookUp(zone, name);
    PutFirst(zone, rec, 2);
    Forward(zone, 5);
    Forward(zone, 6);
    rec := LookUp(zone, name);
    NotInWindow(zone, 2);
  }

  /** The flush chapters of an empty list, and the chapter that is reported. */
  lemma LateFlush()
    ensures EmptyFlush(0, 5, 5, 4) == 5 && EmptyFlush(0, 2, 5, 4) == 3 && ToVirtual(3, 2 % 4, 4) == 6
  {
  }

  lemma NotInWindow(zone: MasterIndexZone, chapter: nat)
    requires zone.Based() && |zone.flushChapters| == 1 && HasOne(zone, chapter) && chapter < zone.flushChapters[0]
    ensures !zone.Valid()
  {
    hide DeltaIndexZone.Valid;
    assert zone.chapters[0][0] == chapter;
  }

  /** A record is put in chapter 2, which is indexed, after a lookup has noted that the
      list holds nothing older than chapter 3. The invariant fails. */
  method PutLate(format: Format, name: Name) returns (zone: MasterIndexZone)
    requires IsFormat(format) && format.valueBits == 2
    ensures zone.Based() && zone.IsIndexed(2) && HasOne(zone, 2) && !zone.Valid()
  {
    hide IsFormat, DeltaIndexZone.Valid, AllDated, AllDates, ToVirtual, Pow2;
    zone := NewZone(format);
    Forward(zone, 3);
    Forward(zone, 5);
    var rec := LookUp(zone, name);
    LateFlush();
    PutFirst(zone, rec, 2);
  }

  /** A record of chapter 5 is moved to chapter 2 in the same way. */
  method MoveLate(format: Format, name: Name) returns (zone: MasterIndexZone, status: Status)
    requires IsFormat(format) && format.valueBits == 2
    ensures zone.Based() && zone.IsIndexed(2) && status.Success? && !zone.Valid()
  {
    hide IsFormat, DeltaIndexZone.Valid, AllDated, AllDates, ToVirtual, Pow2;
    zone := NewZone(format);
    Forward(zone, 3);
    Forward(zone, 5);
    var rec := LookUp(zone, name);
    LateFlush();
    PutFirst(zone, rec, 5);
    rec := LookUp(zone, name);
    assert zone.Valid();
    status := zone.SetRecordChapter(rec, 2);
  }
}
