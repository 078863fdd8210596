/** The map from chapters and delta lists to index pages (uds/indexPageMap.c), and how
    it is filled when a chapter is written (uds/volume.c) and when the index is rebuilt
    (uds/index.c). */
module IndexPageMap {
  import opened Bits
  import opened Numbers
  import opened DeltaCode
  import opened DeltaLayout
  import opened DeltaEntries
  import opened DeltaSearch
  import opened DeltaIndexSpec
  import opened DeltaIndex
  import opened PageLayout
  import opened DeltaPage
  import opened ChapterAnswers
  import opened ChapterIndex
  import opened UdsStatus

  /** The lists of a chapter divided among its pages: page p has the lists from
      firsts[p] up to firsts[p + 1]. */
  ghost predicate IsDivision(firsts: seq<nat>, pages: nat, lists: nat) {
    && |firsts| == pages + 1 && firsts[0] == 0 && firsts[pages] == lists
    && forall p, q :: 0 <= p <= q <= pages ==> firsts[p] <= firsts[q]
  }

  function Slot(pages: nat, chapter: nat, page: nat): nat
    requires pages > 0
  {
    chapter * (pages - 1) + page
  }

  lemma SlotInside(pages: nat, chapters: nat, chapter: nat, page: nat)
    requires chapter < chapters && page < pages - 1
    ensures Slot(pages, chapter, page) < chapters * (pages - 1)
  {
    MulMonotone(chapter + 1, chapters, pages - 1);
    assert (chapter + 1) * (pages - 1) == chapter * (pages - 1) + (pages - 1);
  }

  lemma SlotsDiffer(pages: nat, a: nat, p: nat, b: nat, q: nat)
    requires p < pages - 1 && q < pages - 1 && a != b
    ensures Slot(pages, a, p) != Slot(pages, b, q)
  {
    if a < b {
      SlotInside(pages, b, a, p);
    } else {
      SlotInside(pages, a, b, q);
    }
  }

  /** No entry of another chapter has changed. */
  ghost predicate OthersKept(pages: nat, before: seq<nat>, after: seq<nat>, chapter: nat)
    requires pages > 0
  {
    && |after| == |before|
    && forall c: nat, p: nat :: c != chapter && p < pages - 1 && Slot(pages, c, p) < |before| ==>
      after[Slot(pages, c, p)] == before[Slot(pages, c, p)]
  }

  lemma OthersSame(pages: nat, entries: seq<nat>, chapter: nat)
    requires pages > 0
    ensures OthersKept(pages, entries, entries, chapter)
  {
  }

  lemma OthersKeptStill(pages: nat, before: seq<nat>, entries: seq<nat>, after: seq<nat>, chapter: nat, page: nat,
    list: nat)
    requires page < pages && OthersKept(pages, before, entries, chapter)
    requires page == pages - 1 ==> after == entries
    requires page < pages - 1 ==>
      Slot(pages, chapter, page) < |entries| && after == entries[Slot(pages, chapter, page) := list]
    ensures OthersKept(pages, before, after, chapter)
  {
    hide Slot;
    if page < pages - 1 {
      forall c: nat, p: nat | c != chapter && p < pages - 1 && Slot(pages, c, p) < |before|
        ensures after[Slot(pages, c, p)] == before[Slot(pages, c, p)]
      {
        SlotsDiffer(pages, c, p, chapter, page);
      }
    }
  }

  /** The entry of a page of a chapter is the last list of the page. */
  ghost predicate EndsAt(pages: nat, entries: seq<nat>, chapter: nat, page: nat, firsts: seq<nat>)
    requires pages > 0 && page + 1 < |firsts|
  {
    Slot(pages, chapter, page) < |entries| && entries[Slot(pages, chapter, page)] + 1 == firsts[page + 1]
  }

  /** So it is for the first n pages, the last page excepted. */
  ghost predicate Ends(pages: nat, entries: seq<nat>, chapter: nat, firsts: seq<nat>, n: nat)
    requires pages > 0 && n < |firsts|
  {
    forall p :: 0 <= p < n && p < pages - 1 ==> EndsAt(pages, entries, chapter, p, firsts)
  }

  lemma NoEnds(pages: nat, entries: seq<nat>, chapter: nat)
    requires pages > 0
    ensures Ends(pages, entries, chapter, [0], 0)
  {
  }

  lemma EndsMore(pages: nat, entries: seq<nat>, entries': seq<nat>, chapter: nat, firsts: seq<nat>, n: nat, next: nat)
    requires 0 < n + 1 == |firsts| <= pages && next > 0 && Ends(pages, entries, chapter, firsts, n)
    requires n == pages - 1 ==> entries' == entries
    requires n < pages - 1 ==>
      Slot(pages, chapter, n) < |entries| && entries' == entries[Slot(pages, chapter, n) := next - 1]
    ensures Ends(pages, entries', chapter, firsts + [next], n + 1)
  {
    forall p | 0 <= p < n + 1 && p < pages - 1
      ensures EndsAt(pages, entries', chapter, p, firsts + [next])
    {
      if p < n {
        assert EndsAt(pages, entries, chapter, p, firsts);
        PageSlots(pages, chapter, p, n);
      }
    }
  }

  class PageMap {
    const chapters: nat
    const pages: nat
    const lists: nat
    const entries: array<nat>
    var lastUpdate: nat

    ghost predicate Valid() {
      pages > 0 && 0 < lists <= 65536 && entries.Length == chapters * (pages - 1)
    }

    constructor (chapters: nat, pages: nat, lists: nat)
      requires pages > 0 && 0 < lists <= 65536
      ensures Valid() && this.chapters == chapters && this.pages == pages && this.lists == lists && fresh(entries)
    {
      this.chapters, this.pages, this.lists := chapters, pages, lists;
      entries := new nat[chapters * (pages - 1)];
      lastUpdate := 0;
    }

    /** The map knows which lists are on which page of a chapter. */
    ghost predicate Describes(chapter: nat, firsts: seq<nat>)
      requires Valid()
      reads entries
    {
      && chapter < chapters && IsDivision(firsts, pages, lists)
      && Ends(pages, entries[..], chapter, firsts, pages)
    }

    /** Set the last list of a page. The entry of the last page is not stored. */
    method Update(virtualChapter: nat, chapter: nat, page: nat, list: nat) returns (status: Status)
      requires Valid()
      modifies this`lastUpdate, entries
      ensures lastUpdate == virtualChapter
      ensures status == if chapter < chapters && page < pages && list < lists then Success else InvalidArgument
      ensures status.Success? && page < pages - 1 ==>
        && Slot(pages, chapter, page) < entries.Length
        && entries[..] == old(entries[..])[Slot(pages, chapter, page) := list]
      ensures !status.Success? || page >= pages - 1 ==> entries[..] == old(entries[..])
    {
      hide Slot;
      lastUpdate := virtualChapter;
      if chapter >= chapters || page >= pages || list >= lists {
        return InvalidArgument;
      }
      if page == pages - 1 {
        return Success;
      }
      SlotInside(pages, chapters, chapter, page);
      entries[Slot(pages, chapter, page)] := list;
      return Success;
    }

    /** The page of a chapter that has a list. */
    method Find(list: nat, chapter: nat, ghost firsts: seq<nat>) returns (status: Status, page: nat)
      requires Valid() && (chapter < chapters ==> Describes(chapter, firsts))
      ensures status == if chapter < chapters then Success else InvalidArgument
      ensures status.Success? && list < lists ==> page < pages && firsts[page] <= list < firsts[page + 1]
    {
      hide Slot;
      page := 0;
      if chapter >= chapters {
        return InvalidArgument, page;
      }
      while page < pages - 1
        invariant page <= pages - 1 && firsts[page] <= list
      {
        SlotInside(pages, chapters, chapter, page);
        assert EndsAt(pages, entries[..], chapter, page, firsts);
        if list <= entries[Slot(pages, chapter, page)] {
          break;
        }
        page := page + 1;
      }
      return Success, page;
    }

    /** The first and last list of a page; a page without lists has a last list
        before its first. */
    method Bounds(chapter: nat, page: nat, ghost firsts: seq<nat>) returns (status: Status, lowest: int, highest: int)
      requires Valid() && (chapter < chapters ==> Describes(chapter, firsts))
      ensures status == if chapter < chapters && page < pages then Success else AssertionFailed
      ensures status.Success? ==>
        page < pages && |firsts| == pages + 1 && lowest == firsts[page] && highest + 1 == firsts[page + 1]
    {
      hide Slot;
      if chapter >= chapters || page >= pages {
        return AssertionFailed, 0, 0;
      }
      lowest, highest := 0, lists - 1;
      if page > 0 {
        SlotInside(pages, chapters, chapter, page - 1);
        assert EndsAt(pages, entries[..], chapter, page - 1, firsts);
        lowest := entries[Slot(pages, chapter, page - 1)] + 1;
      }
      if page < pages - 1 {
        SlotInside(pages, chapters, chapter, page);
        assert EndsAt(pages, entries[..], chapter, page, firsts);
        highest := entries[Slot(pages, chapter, page)];
      }
      status := Success;
    }
  }

  // ----- Writing the index pages of a chapter -----

  function PageHeader(nonce: nat, chapter: nat, first: nat, next: nat): Header
    requires first <= next
  {
    Header(nonce, chapter, first, next - first)
  }

  /** Page p holds its lists. */
  ghost predicate HoldsLists(f: Format, m: seq<Byte>, size: nat, nonce: nat, chapter: nat, ess: seq<seq<Entry>>,
      first: nat, next: nat)
    requires f.coding.incrKeys > 0 && first <= next <= |ess|
  {
    IsPacked(m, size, PageHeader(nonce, chapter, first, next), Codes(f, ess[first..next]))
  }

  /** The first n pages hold the lists before firsts[n]. */
  ghost predicate Written(f: Format, pages: seq<seq<Byte>>, size: nat, nonce: nat, chapter: nat, ess: seq<seq<Entry>>,
      firsts: seq<nat>)
    requires f.coding.incrKeys > 0
  {
    && |firsts| == |pages| + 1 && firsts[0] == 0
    && (forall p, q :: 0 <= p <= q < |firsts| ==> firsts[p] <= firsts[q] <= |ess|)
    && forall p :: 0 <= p < |pages| ==> HoldsPage(f, pages, size, nonce, chapter, ess, firsts, p)
  }

  ghost predicate HoldsPage(f: Format, pages: seq<seq<Byte>>, size: nat, nonce: nat, chapter: nat, ess: seq<seq<Entry>>,
      firsts: seq<nat>, p: nat)
    requires f.coding.incrKeys > 0 && p < |pages| && p + 1 < |firsts| && firsts[p] <= firsts[p + 1] <= |ess|
  {
    HoldsLists(f, pages[p], size, nonce, chapter, ess, firsts[p], firsts[p + 1])
  }

  /** Pages written before are not affected when later lists are emptied. */
  lemma WrittenKept(f: Format, pages: seq<seq<Byte>>, size: nat, nonce: nat, chapter: nat, ess: seq<seq<Entry>>,
      ess': seq<seq<Entry>>, firsts: seq<nat>)
    requires f.coding.incrKeys > 0 && Written(f, pages, size, nonce, chapter, ess, firsts) &&
      Emptied(ess, ess', firsts[|pages|])
    ensures Written(f, pages, size, nonce, chapter, ess', firsts)
  {
    hide IsPacked, Codes;
    forall p | 0 <= p < |pages|
      ensures HoldsPage(f, pages, size, nonce, chapter, ess', firsts, p)
    {
      assert HoldsPage(f, pages, size, nonce, chapter, ess, firsts, p);
      assert firsts[p + 1] <= firsts[|pages|];
      assert ess'[firsts[p]..firsts[p + 1]] == ess[firsts[p]..firsts[p + 1]];
    }
  }

  lemma WrittenMore(f: Format, pages: seq<seq<Byte>>, m: seq<Byte>, size: nat, nonce: nat, chapter: nat,
      ess: seq<seq<Entry>>, firsts: seq<nat>, next: nat)
    requires f.coding.incrKeys > 0 && Written(f, pages, size, nonce, chapter, ess, firsts) &&
      firsts[|pages|] <= next <= |ess|
    requires HoldsLists(f, m, size, nonce, chapter, ess, firsts[|pages|], next)
    ensures Written(f, pages + [m], size, nonce, chapter, ess, firsts + [next])
  {
    hide HoldsLists;
    var pages', firsts' := pages + [m], firsts + [next];
    forall p | 0 <= p < |pages'|
      ensures HoldsPage(f, pages', size, nonce, chapter, ess, firsts', p)
    {
      if p < |pages| {
        assert HoldsPage(f, pages, size, nonce, chapter, ess, firsts, p);
      }
    }
  }

  lemma EmptiedTwice(a: seq<seq<Entry>>, b: seq<seq<Entry>>, c: seq<seq<Entry>>, records: map<Name, nat>,
      listOf: Name -> nat, from: nat)
    requires Emptied(a, b, 0) && Emptied(b, c, from)
    ensures Emptied(a, c, 0) && Remaining(Remaining(records, b, listOf), c, listOf) == Remaining(records, c, listOf)
  {
  }

  /** Write all index pages of a chapter and enter them in the page map. */
  method WriteIndexPages(index: OpenChapterIndex, pageMap: PageMap, scratch: array<Byte>, size: nat, chapter: nat)
    returns (status: Status, pages: seq<seq<Byte>>, ghost firsts: seq<nat>)
    requires index.Valid() && pageMap.Valid() && chapter < pageMap.chapters && pageMap.lists == |index.index.entries|
    requires scratch != index.index.zone.memory && size <= scratch.Length && size <= MAX_PAGE_SIZE
    modifies pageMap`lastUpdate, pageMap.entries, scratch, index`records, index.index, index.index.zone,
      index.index.zone.memory
    ensures index.Valid() && Emptied(old(index.index.entries), index.index.entries, 0)
    ensures index.records == Remaining(old(index.records), index.index.entries, index.listOf)
    ensures status.Success? || status.Overflow?
    ensures TableOffset(pageMap.lists + 1) + GUARD_BITS <= 8 * size ==> status.Success?
    ensures OthersKept(pageMap.pages, old(pageMap.entries[..]), pageMap.entries[..], chapter)
    ensures status.Success? ==>
      && |pages| == pageMap.pages && pageMap.Describes(chapter, firsts)
      && index.index.format.coding.incrKeys > 0
      && Written(index.index.format, pages, size, index.nonce, index.virtualChapter, index.index.entries, firsts)
  {
    hide DeltaIndexZone.Valid, DeltaIndexZone.DataValid, OpenChapterIndex.Valid, IsPacked, Codes, Emptied, Remaining,
      Written, Slot, Pow2, Ends, OthersKept, OnlyTooLarge, Finds;
    index.Basics();
    ghost var ess, rs, f := index.index.entries, index.records, index.index.format;
    NothingWritten(f, size, index.nonce, index.virtualChapter, ess, rs, index.listOf, index.addressOf);
    NoEnds(pageMap.pages, pageMap.entries[..], chapter);
    OthersSame(pageMap.pages, pageMap.entries[..], chapter);
    pages, firsts := [], [0];
    var list := 0;
    for page := 0 to pageMap.pages
      invariant index.Valid() && |index.index.entries| == pageMap.lists && Emptied(ess, index.index.entries, 0)
      invariant index.records == Remaining(rs, index.index.entries, index.listOf)
      invariant |pages| == page && |firsts| == page + 1 && firsts[page] == list <= pageMap.lists
      invariant page > 0 ==> list > 0
      invariant page == pageMap.pages ==> list == pageMap.lists
      invariant Written(f, pages, size, index.nonce, index.virtualChapter, index.index.entries, firsts)
      invariant Ends(pageMap.pages, pageMap.entries[..], chapter, firsts, page)
      invariant OthersKept(pageMap.pages, old(pageMap.entries[..]), pageMap.entries[..], chapter)
    {
      index.Basics();
      ghost var now := index.index.entries;
      var listsPacked;
      status, listsPacked := index.PackPage(scratch, size, list, page + 1 == pageMap.pages);
      WrittenKept(f, pages, size, index.nonce, index.virtualChapter, now, index.index.entries, firsts);
      EmptiedTwice(ess, now, index.index.entries, rs, index.listOf, list);
      if !status.Success? {
        return;
      }
      pages := pages + [scratch[..]];
      list := list + listsPacked;
      WrittenMore(f, pages[..page], scratch[..], size, index.nonce, index.virtualChapter, index.index.entries, firsts,
        list);
      ghost var entries := pageMap.entries[..];
      status := pageMap.Update(index.virtualChapter, chapter, page, list - 1);
      EndsMore(pageMap.pages, entries, pageMap.entries[..], chapter, firsts, page, list);
      OthersKeptStill(pageMap.pages, old(pageMap.entries[..]), entries, pageMap.entries[..], chapter, page, list - 1);
      firsts := firsts + [list];
    }
    WrittenIsDivision(f, pages, size, index.nonce, index.virtualChapter, index.index.entries, firsts);
    status := Success;
  }

  lemma WrittenIsDivision(f: Format, pages: seq<seq<Byte>>, size: nat, nonce: nat, chapter: nat, ess: seq<seq<Entry>>,
      firsts: seq<nat>)
    requires f.coding.incrKeys > 0 && Written(f, pages, size, nonce, chapter, ess, firsts) && firsts[|pages|] == |ess|
    ensures IsDivision(firsts, |pages|, |ess|)
  {
  }

  lemma NothingWritten(f: Format, size: nat, nonce: nat, chapter: nat, ess: seq<seq<Entry>>, records: map<Name, nat>,
      listOf: Name -> nat, addressOf: Name -> nat)
    requires f.coding.incrKeys > 0 && Finds(ess, listOf, addressOf, records)
    ensures Written(f, [], size, nonce, chapter, ess, [0]) && Emptied(ess, ess, 0) &&
      Remaining(records, ess, listOf) == records
  {
    SameEmptied(ess, listOf, addressOf, records, 0);
  }

  lemma PageSlots(pages: nat, chapter: nat, p: nat, q: nat)
    requires pages > 0 && p != q
    ensures Slot(pages, chapter, p) != Slot(pages, chapter, q)
  {
  }

  // ----- Looking a name up -----

  /** The page of a list holds it as it is in the index. */
  lemma PageHasList(f: Format, pages: seq<seq<Byte>>, size: nat, nonce: nat, chapter: nat, ess: seq<seq<Entry>>,
      firsts: seq<nat>, p: nat, i: nat)
    requires IsFormat(f) && f.coding.incrKeys > 0 && Written(f, pages, size, nonce, chapter, ess, firsts)
    requires p < |pages| && firsts[p] + i < firsts[p + 1] <= |ess| && WellFormed(f, ess[firsts[p] + i])
    ensures HEADER_BYTES <= |pages[p]| && ReadHeader(pages[p]).firstList == firsts[p] &&
      i < ReadHeader(pages[p]).numLists
    ensures TableOffset(i + 1) / 8 + 4 <= |pages[p]| && StartOf(pages[p], i) <= StartOf(pages[p], i + 1)
    ensures Stored(f, pages[p], PageList(pages[p], i), ess[firsts[p] + i])
  {
    hide IsPacked, Stored, StartOf, ReadHeader, WellFormed, ListCode, IsFormat;
    assert HoldsPage(f, pages, size, nonce, chapter, ess, firsts, p);
    var h, codes := PageHeader(nonce, chapter, firsts[p], firsts[p + 1]), Codes(f, ess[firsts[p]..firsts[p + 1]]);
    PackedSize(pages[p], size, h, codes);
    PackedHeader(pages[p], size, h, codes);
    PackedStored(f, pages[p], size, h, codes, i, ess[firsts[p] + i]);
  }

  /** Look a name up on the page that the map gives for its list. The answer is that of
      the list. Every name that is left in the index is found with its record page. */
  method LookUp(index: OpenChapterIndex, pageMap: PageMap, chapter: nat, volume: seq<array<Byte>>,
      ghost pages: seq<seq<Byte>>, size: nat, ghost firsts: seq<nat>, name: Name)
    returns (status: Status, recordPage: int)
    requires index.Valid() && index.index.format.coding.incrKeys > 0 && index.listOf(name) < |index.index.entries|
    requires pageMap.Valid() && pageMap.lists == |index.index.entries| && pageMap.Describes(chapter, firsts)
    requires Written(index.index.format, pages, size, index.nonce, index.virtualChapter, index.index.entries, firsts)
    requires |volume| == |pages| == pageMap.pages && forall p :: 0 <= p < |pages| ==> volume[p][..] == pages[p]
    ensures status.Success?
    ensures recordPage == match Answer(index.index.entries[index.listOf(name)], index.addressOf(name), name)
      case Some(page) => page
      case None => -1
    ensures name in index.records ==> recordPage == index.records[name]
  {
    hide DeltaIndexZone.Valid, DeltaIndexZone.DataValid, Answer, Stored, StartOf, ReadHeader, Written, Locate,
      WellFormed, IsFormat, Pow2;
    index.Basics();
    index.index.Basics();
    var list := index.listOf(name);
    var p;
    status, p := pageMap.Find(list, chapter, firsts);
    var m := volume[p];
    PageHasList(index.index.format, pages, size, index.nonce, index.virtualChapter, index.index.entries, firsts, p,
      list - firsts[p]);
    var h := ReadHeader(m[..]);
    ghost var es := index.index.entries[list];
    status, recordPage := FindRecordPage(index.index.format, m, h.numLists, list - h.firstList, index.addressOf(name),
      name, es);
    AnswerIsRecordPage(es, index.addressOf(name), name, recordPage);
  }

  lemma AnswerIsRecordPage(es: seq<Entry>, key: nat, name: Name, recordPage: int)
    requires recordPage == (var j := Locate(es, key, name); if j < |es| && KeyAt(es, j) == key then es[j].value else -1)
    ensures recordPage == match Answer(es, key, name) case Some(page) => page case None => -1
  {
  }

  // ----- Rebuilding the map from the pages -----

  /** The first list of page p, going by the header of the page before. */
  function NextList(headers: seq<Header>, p: nat): nat
    requires p <= |headers|
  {
    if p == 0 then 0 else headers[p - 1].firstList + headers[p - 1].numLists
  }

  ghost function FirstLists(headers: seq<Header>, n: nat): (firsts: seq<nat>)
    requires n <= |headers| + 1
    ensures |firsts| == n
  {
    seq(n, p requires 0 <= p < n => NextList(headers, p))
  }

  /** The page begins with the list after those of the page before. */
  predicate Follows(headers: seq<Header>, p: nat, lists: nat)
    requires p < |headers|
  {
    headers[p].firstList == NextList(headers, p) && 0 < NextList(headers, p + 1) <= lists
  }

  ghost predicate IsHeaderSeq(headers: seq<Header>) {
    forall p :: 0 <= p < |headers| ==> headers[p].firstList < 65536 && headers[p].numLists < 65536
  }

  /** Enter the pages of a chapter in the map from their headers. This succeeds if and
      only if every page follows the one before. The map then describes the chapter if
      and only if the last page ends with the last list, which is not checked. */
  method Rebuild(pageMap: PageMap, virtualChapter: nat, chapter: nat, headers: seq<Header>) returns (status: Status)
    requires pageMap.Valid() && chapter < pageMap.chapters && |headers| == pageMap.pages && IsHeaderSeq(headers)
    modifies pageMap`lastUpdate, pageMap.entries
    ensures OthersKept(pageMap.pages, old(pageMap.entries[..]), pageMap.entries[..], chapter)
    ensures status.Success? <==> forall p :: 0 <= p < |headers| ==> Follows(headers, p, pageMap.lists)
    ensures status.Success? ==>
      (pageMap.Describes(chapter, FirstLists(headers, pageMap.pages + 1)) <==>
        NextList(headers, pageMap.pages) == pageMap.lists)
  {
    hide Slot, Ends, OthersKept;
    var expected := 0;
    OthersSame(pageMap.pages, pageMap.entries[..], chapter);
    NoEnds(pageMap.pages, pageMap.entries[..], chapter);
    assert FirstLists(headers, 1) == [0];
    for page := 0 to pageMap.pages
      invariant expected == NextList(headers, page) && forall p :: 0 <= p < page ==> Follows(headers, p, pageMap.lists)
      invariant Ends(pageMap.pages, pageMap.entries[..], chapter, FirstLists(headers, page + 1), page)
      invariant OthersKept(pageMap.pages, old(pageMap.entries[..]), pageMap.entries[..], chapter)
    {
      if headers[page].firstList != expected {
        assert !Follows(headers, page, pageMap.lists);
        return CorruptData;
      }
      var highest := (headers[page].firstList + headers[page].numLists - 1) % UINT32_RANGE;
      ghost var entries := pageMap.entries[..];
      status := pageMap.Update(virtualChapter, chapter, page, highest);
      if !status.Success? {
        assert pageMap.entries[..] == entries;
        assert !Follows(headers, page, pageMap.lists);
        return;
      }
      OthersKeptStill(pageMap.pages, old(pageMap.entries[..]), entries, pageMap.entries[..], chapter, page, highest);
      EndsMore(pageMap.pages, entries, pageMap.entries[..], chapter, FirstLists(headers, page + 1), page,
        NextList(headers, page + 1));
      assert FirstLists(headers, page + 1) + [NextList(headers, page + 1)] == FirstLists(headers, page + 2);
      expected := (highest + 1) % UINT32_RANGE;
    }
    if NextList(headers, pageMap.pages) == pageMap.lists {
      FollowingIsDivision(headers, pageMap.lists);
    }
    status := Success;
  }

  lemma {:induction false} FirstListsGrow(headers: seq<Header>, lists: nat, p: nat, q: nat)
    requires p <= q <= |headers| && forall k :: 0 <= k < |headers| ==> Follows(headers, k, lists)
    ensures NextList(headers, p) <= NextList(headers, q)
    decreases q - p
  {
    if p < q {
      assert Follows(headers, p, lists);
      FirstListsGrow(headers, lists, p + 1, q);
    }
  }

  lemma FollowingIsDivision(headers: seq<Header>, lists: nat)
    requires NextList(headers, |headers|) == lists && forall p :: 0 <= p < |headers| ==> Follows(headers, p, lists)
    ensures IsDivision(FirstLists(headers, |headers| + 1), |headers|, lists)
  {
    forall p, q | 0 <= p <= q <= |headers|
      ensures NextList(headers, p) <= NextList(headers, q)
    {
      FirstListsGrow(headers, lists, p, q);
    }
  }

  /** The headers of a chapter that was written rebuild the map as it was filled. */
  lemma RebuildsWritten(f: Format, pages: seq<seq<Byte>>, size: nat, nonce: nat, chapter: nat, ess: seq<seq<Entry>>,
      firsts: seq<nat>, headers: seq<Header>)
    requires f.coding.incrKeys > 0 && Written(f, pages, size, nonce, chapter, ess, firsts) && |pages| > 0
    requires firsts[1] > 0 && firsts[|pages|] == |ess| < 65536 && |headers| == |pages|
    requires forall p :: 0 <= p < |pages| ==> |pages[p]| >= HEADER_BYTES && headers[p] == ReadHeader(pages[p])
    ensures IsHeaderSeq(headers) && FirstLists(headers, |pages| + 1) == firsts && NextList(headers, |pages|) == |ess|
    ensures forall p :: 0 <= p < |pages| ==> Follows(headers, p, |ess|)
  {
    hide IsPacked, Codes, ReadHeader;
    forall p | 0 <= p < |pages|
      ensures headers[p] == PageHeader(nonce, chapter, firsts[p], firsts[p + 1])
      ensures headers[p].firstList < 65536 && headers[p].numLists < 65536
    {
      assert firsts[p] <= firsts[p + 1] <= |ess|;
      assert HoldsPage(f, pages, size, nonce, chapter, ess, firsts, p);
      PackedHeader(pages[p], size, PageHeader(nonce, chapter, firsts[p], firsts[p + 1]),
        Codes(f, ess[firsts[p]..firsts[p + 1]]));
    }
    forall p | 0 <= p <= |pages|
      ensures NextList(headers, p) == firsts[p]
    {
    }
    assert FirstLists(headers, |pages| + 1) == firsts;
    forall p | 0 <= p < |pages|
      ensures Follows(headers, p, |ess|)
    {
      assert firsts[1] <= firsts[p + 1] <= |ess|;
    }
  }
}
