/** The index of one chapter (uds/chapterIndex.c): a delta index that maps the names of
    the chapter to its record pages, filled while the chapter is closed and then
    packed into pages. */
module ChapterIndex {
  import opened Bits
  import opened Numbers
  import opened DeltaCode
  import opened DeltaLayout
  import opened DeltaEntries
  import opened DeltaSearch
  import opened DeltaSave
  import opened DeltaMemory
  import opened DeltaIndexSpec
  import opened DeltaIndex
  import opened PageLayout
  import opened DeltaPage
  import opened ChapterAnswers
  import opened UdsStatus

  ghost predicate AllDistinct(ess: seq<seq<Entry>>) {
    forall k :: 0 <= k < |ess| ==> Distinct(View(ess[k]))
  }

  /** Every name put is found in its list with its page. */
  ghost predicate Finds(ess: seq<seq<Entry>>, listOf: Name -> nat, addressOf: Name -> nat, records: map<Name, nat>) {
    forall n :: n in records ==> listOf(n) < |ess| && Answer(ess[listOf(n)], addressOf(n), n) == Some(records[n])
  }

  /** Some lists from a given one on have been emptied. */
  ghost predicate Emptied(ess: seq<seq<Entry>>, ess': seq<seq<Entry>>, from: nat) {
    |ess'| == |ess| && forall k :: 0 <= k < |ess| ==> ess'[k] == ess[k] || (k >= from && ess'[k] == [])
  }

  /** What is left of the names when some lists have been emptied. */
  ghost function Remaining(records: map<Name, nat>, ess: seq<seq<Entry>>, listOf: Name -> nat): map<Name, nat> {
    map n | n in records && listOf(n) < |ess| && ess[listOf(n)] != [] :: records[n]
  }

  class OpenChapterIndex {
    const index: DeltaIndexZone
    /** The hash functions that give a name its list and its address. */
    const listOf: Name -> nat
    const addressOf: Name -> nat
    const recordPages: nat
    const nonce: nat
    var virtualChapter: nat
    /** The names put, with their pages. */
    ghost var records: map<Name, nat>

    ghost predicate Valid()
      reads this, index, index.zone, index.zone.memory
    {
      && index.Valid() && recordPages <= Pow2(index.format.valueBits)
      && nonce < Pow2(64) && virtualChapter < Pow2(64) && |index.entries| <= Pow2(16) - 1
      && (forall n: Name :: addressOf(n) <= index.format.maxKey)
      && AllDistinct(index.entries) && Finds(index.entries, listOf, addressOf, records)
    }

    lemma Basics()
      requires Valid()
      ensures index.Valid() && index.format.coding.incrKeys > 0 && |index.entries| < Pow2(16)
      ensures nonce < Pow2(64) && virtualChapter < Pow2(64) && AllDistinct(index.entries)
      ensures Finds(index.entries, listOf, addressOf, records)
    {
      hide DeltaIndexZone.Valid, DeltaIndexZone.DataValid;
      index.Basics();
    }

    constructor (size: nat, numLists: nat, format: Format, listOf: Name -> nat, addressOf: Name -> nat,
        recordPages: nat, nonce: nat)
      requires IsFormat(format) && size >= POST_FIELD_GUARD_BYTES && 0 < numLists < Pow2(16)
      requires recordPages <= Pow2(format.valueBits) && nonce < Pow2(64) &&
        forall n: Name :: addressOf(n) <= format.maxKey
      ensures Valid() && records == map[] && fresh(index) && fresh(index.zone) && fresh(index.zone.memory)
    {
      hide DeltaIndexZone.Valid, DeltaIndexZone.DataValid, Pow2, IsFormat;
      index := new DeltaIndexZone(size, 0, numLists, 'o', format);
      this.listOf, this.addressOf, this.recordPages, this.nonce := listOf, addressOf, recordPages, nonce;
      virtualChapter, records := 0, map[];
    }

    /** Begin a new chapter. */
    method Clear(virtualChapter: nat)
      requires Valid() && virtualChapter < Pow2(64) && !index.zone.writing
      modifies this, index, index.zone`lists, index.zone.memory
      ensures Valid() && records == map[] && this.virtualChapter == virtualChapter
      ensures index.entries == seq(|old(index.entries)|, _ => [])
    {
      hide DeltaIndexZone.Valid, DeltaIndexZone.DataValid, Pow2, IsFormat;
      index.Clear();
      this.virtualChapter, records := virtualChapter, map[];
    }

    /** Put the name of a record that is on a page. */
    method Put(name: Name, page: nat) returns (status: Status)
      requires Valid()
      modifies this`records, index, index.zone, index.zone.memory
      ensures Valid()
      ensures page >= recordPages ==> status.InvalidArgument?
      ensures page < recordPages && listOf(name) >= |old(index.entries)| ==> status.CorruptData?
      ensures page < recordPages && listOf(name) < |old(index.entries)| ==>
        && var es := old(index.entries)[listOf(name)];
        && var j := Locate(es, addressOf(name), name);
        && if j < |es| && KeyAt(es, j) == addressOf(name) && es[j].name.Some? then status.BadState?
           else
             var put := if j < |es| && KeyAt(es, j) == addressOf(name) then Some(name) else None;
             && PutAllowed(es, j, addressOf(name), put)
             && status == if CanGrow(old(index.zone.lists), index.zone.memory.Length, listOf(name) + 1,
               PutBits(index.format, es, j, addressOf(name), page, put)) then Success else Overflow
      ensures status.Success? ==> records == old(records)[name := page]
      ensures !status.Success? ==> records == old(records) && index.entries == old(index.entries)
    {
      hide DeltaIndexZone.Valid, DeltaIndexZone.DataValid, Locate, Answer, View, WellFormed, At, KeySum, PutEntry,
        IsFormat, Pow2, Finds, AllDistinct, Distinct, Gained, CanGrow, PutBits,
        SamePlaces;
      if page >= recordPages {
        return InvalidArgument;
      }
      var list, address := listOf(name), addressOf(name);
      ghost var ess, ls := index.entries, index.zone.lists;
      var cur;
      status, cur := index.Get(list, address, name, false);
      ghost var ls1 := index.zone.lists;
      if !status.Success? {
        return;
      }
      ghost var es, j := ess[list], Locate(ess[list], address, name);
      index.Basics();
      DistinctAt(ess, list);
      AtKey(index.format, es, cur, j);
      var found := !cur.atEnd && cur.key == address;
      if found && cur.isCollision {
        return BadState;
      }
      FoundInView(index.format, es, address, name);
      PutAnswers(index.format, es, address, name, page);
      var put := if found then Some(name) else None;
      SamePlacesRoom(ls, ls1, index.zone.memory.Length, list + 1, PutBits(index.format, es, j, address, page, put));
      status, cur := index.Put(cur, address, page, put, j);
      if status.Success? {
        records := records[name := page];
        PutFinds(ess, index.entries, list, listOf, addressOf, old(records), name, page);
      }
    }

    /** Find the first entry of a list, to change it. */
    method FirstEntry(list: nat) returns (cur: Cursor)
      requires index.Valid() && index.format.coding.incrKeys > 0 && list < |index.entries|
      modifies index.zone`flags, index.zone`numTransfers, index.zone`written
      ensures index.Valid() && |index.zone.flags| == |index.entries| && !index.zone.flags[list]
      ensures cur.list == list && At(index.format, index.entries[list], cur, 0)
    {
      hide DeltaIndexZone.Valid, DeltaIndexZone.DataValid, At, Ready, KeySum, Stored;
      index.Basics();
      ghost var i;
      var status;
      status, cur, i := index.StartSearch(list, 0, false);
      index.Basics();
      ReadyBegins(index.format, index.entries[list], cur, i);
      index.ListIsStored(list);
      status, cur := Next(index.format, index.zone.memory, index.zone.lists[list + 1], cur, index.entries[list], 0);
    }

    /** The last list with entries among those from firstList to firstList + n. */
    method FindNonEmpty(firstList: nat, n: nat) returns (status: Status, cur: Cursor)
      requires index.Valid() && index.format.coding.incrKeys > 0 && firstList + n < |index.entries|
      modifies index.zone`flags, index.zone`numTransfers, index.zone`written
      ensures index.Valid()
      ensures status.Success? || status.Overflow?
      ensures status.Overflow? ==> forall k :: firstList <= k <= firstList + n ==> index.entries[k] == []
      ensures status.Success? ==>
        && firstList <= cur.list <= firstList + n && index.entries[cur.list] != [] && !index.zone.flags[cur.list]
        && (forall k :: cur.list < k <= firstList + n ==> index.entries[k] == [])
        && !cur.atEnd && At(index.format, index.entries[cur.list], cur, 0)
    {
      hide DeltaIndexZone.Valid, DeltaIndexZone.DataValid, At, Ready, KeySum, Stored;
      index.Basics();
      var listNumber := n as int;
      cur := Cursor(0, 0, 0, 0, 0, true, false);
      while cur.atEnd
        invariant index.Valid() && -1 <= listNumber <= n && |index.zone.flags| == |index.entries| &&
          index.format.coding.incrKeys > 0
        invariant cur.atEnd ==> forall k :: firstList + listNumber < k <= firstList + n ==> index.entries[k] == []
        invariant !cur.atEnd ==>
          && firstList <= cur.list <= firstList + n && index.entries[cur.list] != [] && !index.zone.flags[cur.list]
          && (forall k :: cur.list < k <= firstList + n ==> index.entries[k] == [])
          && At(index.format, index.entries[cur.list], cur, 0)
        decreases cur.atEnd, listNumber
      {
        if listNumber < 0 {
          return Overflow, cur;
        }
        var list := firstList + listNumber;
        listNumber := listNumber - 1;
        cur := FirstEntry(list);
        AtKey(index.format, index.entries[list], cur, 0);
      }
      return Success, cur;
    }

    /** Remove all entries of a list. */
    method RemoveAll(cur: Cursor)
      requires index.Valid() && cur.list < |index.entries| && !index.zone.flags[cur.list]
      requires !cur.atEnd && At(index.format, index.entries[cur.list], cur, 0)
      modifies index, index.zone`lists, index.zone.memory
      ensures index.Valid() && index.entries == old(index.entries)[cur.list := []]
    {
      hide DeltaIndexZone.Valid, DeltaIndexZone.DataValid, At, RemoveEntry;
      ghost var ess := index.entries;
      var next := cur;
      index.Basics();
      AtKey(index.format, index.entries[cur.list], cur, 0);
      while !next.atEnd
        invariant index.Valid() && |index.entries| == |ess| && index.entries == ess[cur.list := index.entries[cur.list]]
        invariant next.list == cur.list && |index.zone.flags| == |ess| && !index.zone.flags[cur.list]
        invariant index.format.coding.incrKeys > 0 && At(index.format, index.entries[cur.list], next, 0)
        decreases |index.entries[cur.list]|
      {
        AtKey(index.format, index.entries[cur.list], next, 0);
        RemovedSize(index.entries[cur.list], 0);
        var status;
        status, next := index.Remove(next, 0);
        index.Basics();
      }
      AtKey(index.format, index.entries[cur.list], next, 0);
    }

    lemma PackedCodes(firstList: nat, n: nat)
      requires index.Valid() && firstList + n <= |index.entries|
      ensures index.zone.Placed() && firstList + n + 1 < |index.zone.Bits()| && index.format.coding.incrKeys > 0
      ensures ListsFrom(index.zone.Bits(), firstList, n) == Codes(index.format, index.entries[firstList..firstList + n])
    {
      hide WellPlaced, Contents, IsFormat, Snapshot, GoodList, Remembered;
      GoodCodes(index.format, index.entries, index.zone.Bits(), index.zone.lists, firstList, n);
    }

    /** Empty the last list with entries among those from firstList to firstList + n. */
    method MakeRoom(firstList: nat, n: nat) returns (status: Status, ghost list: nat)
      requires Valid() && firstList + n < |index.entries|
      modifies this`records, index, index.zone, index.zone.memory
      ensures Valid() && (status.Success? || status.Overflow?)
      ensures status.Overflow? ==>
        && index.entries == old(index.entries) && records == old(records)
        && forall k :: firstList <= k <= firstList + n ==> index.entries[k] == []
      ensures status.Success? ==>
        && firstList <= list <= firstList + n && old(index.entries)[list] != []
        && index.entries == old(index.entries)[list := []]
        && records == Remaining(old(records), index.entries, listOf)
        && Records(index.entries) < Records(old(index.entries))
    {
      hide DeltaIndexZone.Valid, DeltaIndexZone.DataValid, At, Finds, AllDistinct, Remaining, Pow2, Records;
      ghost var ess := index.entries;
      index.Basics();
      var cur;
      status, cur := FindNonEmpty(firstList, n);
      list := firstList;
      if status.Success? {
        list := cur.list;
        RemoveAll(cur);
        SameEmptied(ess, listOf, addressOf, records, firstList);
        EmptiedOne(ess, ess, list, firstList, listOf, addressOf, records);
        records := Remaining(records, index.entries, listOf);
      }
    }

    /** Pack the lists that fit, and see whether that is enough. */
    method TryPack(page: array<Byte>, size: nat, firstList: nat, lastPage: bool)
      returns (status: Status, numLists: nat, done: bool)
      requires Valid() && page != index.zone.memory && size <= page.Length && size <= MAX_PAGE_SIZE &&
        firstList < Pow2(16)
      modifies page
      ensures status == if firstList > |index.entries| then BadState
        else if 8 * size < TableOffset(2) + GUARD_BITS then Overflow else Success
      ensures !status.Success? ==> done
      ensures status.Success? ==>
        && firstList + numLists <= |index.entries| && index.format.coding.incrKeys > 0
        && TableOffset(numLists + 1) + GUARD_BITS <= 8 * size
        && done == (firstList + numLists == |index.entries| || (numLists > 0 && !lastPage))
        && IsPacked(page[..], size, Header(nonce, virtualChapter, firstList, numLists),
            Codes(index.format, index.entries[firstList..firstList + numLists]))
      ensures !done ==> !FitsOnPage(Codes(index.format, index.entries[firstList..firstList + numLists + 1]), size)
    {
      hide DeltaIndexZone.Valid, DeltaIndexZone.DataValid, IsPacked, FitsOnPage, Finds, AllDistinct, Codes, Packed,
        Pow2, Stream;
      index.Basics();
      status, numLists := Pack(index, page, size, nonce, virtualChapter, firstList);
      done := true;
      if status.Success? {
        PackedCodes(firstList, numLists);
        CodesFit(index.format, index.entries[firstList..firstList + numLists], size);
        done := firstList + numLists == |index.zone.lists| - 2 || (numLists > 0 && !lastPage);
        if !done {
          PackedCodes(firstList, numLists + 1);
        }
      }
    }

    /** Pack lists into a page, from a given list on. A list that does not fit on a
        page by itself is emptied. On the last page all lists that are left have to
        fit, and lists are emptied until they do. */
    method PackPage(page: array<Byte>, size: nat, firstList: nat, lastPage: bool)
      returns (status: Status, numLists: nat)
      requires Valid() && page != index.zone.memory && size <= page.Length && size <= MAX_PAGE_SIZE &&
        firstList < Pow2(16)
      modifies this`records, page, index, index.zone, index.zone.memory
      ensures Valid() && |index.entries| == |old(index.entries)| &&
        Emptied(old(index.entries), index.entries, firstList)
      ensures records == Remaining(old(records), index.entries, listOf)
      ensures var total := |index.entries|;
        status == if firstList > total then BadState
          else if 8 * size < TableOffset(2) + GUARD_BITS ||
            (lastPage && 8 * size < TableOffset(total - firstList + 1) + GUARD_BITS) then Overflow
          else Success
      ensures status.Success? ==>
        && firstList + numLists <= |index.entries|
        && (firstList < |index.entries| ==> numLists > 0) && (lastPage ==> firstList + numLists == |index.entries|)
        && IsPacked(page[..], size, Header(nonce, virtualChapter, firstList, numLists),
            Codes(index.format, index.entries[firstList..firstList + numLists]))
      ensures !lastPage ==> OnlyTooLarge(index.format, old(index.entries), index.entries, firstList, size)
    {
      hide DeltaIndexZone.Valid, DeltaIndexZone.DataValid, OpenChapterIndex.Valid, IsPacked, FitsOnPage, Finds,
        AllDistinct, Remaining, Codes, Packed, Pow2, ListCode, Stream, Emptied, OnlyTooLarge, Records;
      ghost var ess, rs := index.entries, records;
      Basics();
      SameEmptied(ess, listOf, addressOf, rs, firstList);
      NoneTooLarge(index.format, ess, firstList, size);
      while true
        invariant index.format.coding.incrKeys > 0 && Valid() && Emptied(ess, index.entries, firstList) &&
          records == Remaining(rs, index.entries, listOf)
        invariant Finds(ess, listOf, addressOf, rs) && |index.entries| == |ess|
        invariant !lastPage ==> OnlyTooLarge(index.format, ess, index.entries, firstList, size)
        decreases Records(index.entries)
      {
        Basics();
        var done;
        status, numLists, done := TryPack(page, size, firstList, lastPage);
        if done {
          return;
        }
        ghost var now, list := index.entries, 0;
        status, list := MakeRoom(firstList, numLists);
        if !status.Success? {
          EmptyCodesFit(index.format, now[firstList..firstList + numLists + 1], size);
          return;
        }
        EmptiedOne(ess, now, list, firstList, listOf, addressOf, rs);
        if !lastPage {
          NotEmptied(ess, now, firstList);
          TooLarge(index.format, ess, now, firstList, size);
        }
      }
    }
  }

  lemma GoodCodes(f: Format, ess: seq<seq<Entry>>, bits: seq<seq<bool>>, ls: seq<DeltaList>, first: nat, n: nat)
    requires f.coding.incrKeys > 0 && AllGood(f, ess, bits, ls) && first + n <= |ess|
    ensures ListsFrom(bits, first, n) == Codes(f, ess[first..first + n])
  {
    hide GoodList, ListCode;
    var codes, lists := Codes(f, ess[first..first + n]), ListsFrom(bits, first, n);
    forall k | 0 <= k < n
      ensures lists[k] == codes[k]
    {
      AllGoodParts(f, ess, bits, ls, first + k);
    }
  }

  /** Only the first list has changed, because it does not fit on a page. */
  ghost predicate OnlyTooLarge(f: Format, ess: seq<seq<Entry>>, ess': seq<seq<Entry>>, firstList: nat, size: nat)
    requires f.coding.incrKeys > 0 && |ess'| == |ess|
  {
    forall k :: 0 <= k < |ess| && ess'[k] != ess[k] ==> k == firstList && !FitsOnPage([ListCode(f, ess[k])], size)
  }

  lemma TooLarge(f: Format, ess: seq<seq<Entry>>, now: seq<seq<Entry>>, firstList: nat, size: nat)
    requires f.coding.incrKeys > 0 && |now| == |ess| && OnlyTooLarge(f, ess, now, firstList, size) && firstList < |ess|
    requires now[firstList] == ess[firstList] && !FitsOnPage(Codes(f, now[firstList..firstList + 1]), size)
    ensures OnlyTooLarge(f, ess, now[firstList := []], firstList, size)
  {
    assert Codes(f, now[firstList..firstList + 1]) == [ListCode(f, ess[firstList])];
  }

  lemma NotEmptied(ess: seq<seq<Entry>>, now: seq<seq<Entry>>, k: nat)
    requires Emptied(ess, now, k) && k < |now| && now[k] != []
    ensures now[k] == ess[k]
  {
  }

  lemma CodesFit(f: Format, ess: seq<seq<Entry>>, size: nat)
    requires f.coding.incrKeys > 0 && FitsOnPage(Codes(f, ess), size)
    ensures TableOffset(|ess| + 1) + GUARD_BITS <= 8 * size
  {
  }

  /** Empty lists need no more than their place in the table. */
  lemma {:induction false} EmptyCodesFit(f: Format, ess: seq<seq<Entry>>, size: nat)
    requires f.coding.incrKeys > 0 && !FitsOnPage(Codes(f, ess), size) && forall k :: 0 <= k < |ess| ==> ess[k] == []
    ensures 8 * size < TableOffset(|ess| + 1) + GUARD_BITS
  {
    var codes := Codes(f, ess);
    EmptyCode(f);
    NothingToJoin(codes);
    assert codes[..|codes|] == codes;
  }

  lemma {:induction false} NothingToJoin(lists: seq<seq<bool>>)
    requires forall k :: 0 <= k < |lists| ==> lists[k] == []
    ensures Join(lists) == []
  {
    if lists != [] {
      NothingToJoin(lists[..|lists| - 1]);
    }
  }

  lemma SameEmptied(ess: seq<seq<Entry>>, listOf: Name -> nat, addressOf: Name -> nat, records: map<Name, nat>,
      from: nat)
    requires Finds(ess, listOf, addressOf, records)
    ensures Emptied(ess, ess, from) && Remaining(records, ess, listOf) == records
  {
  }

  lemma NoneTooLarge(f: Format, ess: seq<seq<Entry>>, firstList: nat, size: nat)
    requires f.coding.incrKeys > 0
    ensures OnlyTooLarge(f, ess, ess, firstList, size)
  {
  }

  /** One more list is emptied. */
  lemma EmptiedOne(ess: seq<seq<Entry>>, now: seq<seq<Entry>>, list: nat, from: nat,
                   listOf: Name -> nat, addressOf: Name -> nat, records: map<Name, nat>)
    requires Emptied(ess, now, from) && from <= list < |ess| && AllDistinct(now) &&
      Finds(ess, listOf, addressOf, records)
    ensures var ess' := now[list := []];
      && Emptied(ess, ess', from) && AllDistinct(ess') && Records(ess') == Records(now) - |now[list]|
      && Remaining(Remaining(records, now, listOf), ess', listOf) == Remaining(records, ess', listOf)
      && Finds(ess', listOf, addressOf, Remaining(records, ess', listOf))
  {
    hide Answer, View;
    var ess' := now[list := []];
    CountsUpdate(now, list, []);
    assert View([]) == [] by { EmptyView(); }
    forall k | 0 <= k < |ess'|
      ensures Distinct(View(ess'[k])) && (ess'[k] == now[k] || ess'[k] == [])
    {
    }
  }

  lemma EmptyView()
    ensures View([]) == []
  {
  }

  lemma ReadyBegins(f: Format, es: seq<Entry>, cur: Cursor, i: nat)
    requires f.coding.incrKeys > 0 && Ready(f, es, cur, i) && (i > 0 ==> KeySum(es[..i]) < 0)
    ensures Ready(f, es, cur, 0)
  {
  }

  lemma RemovedSize(es: seq<Entry>, j: nat)
    requires j < |es|
    ensures |RemoveEntry(es, j)| == |es| - 1
  {
  }

  lemma DistinctAt(ess: seq<seq<Entry>>, k: nat)
    requires AllDistinct(ess) && k < |ess|
    ensures Distinct(View(ess[k]))
  {
  }

  lemma PutFinds(ess: seq<seq<Entry>>, ess': seq<seq<Entry>>, list: nat, listOf: Name -> nat, addressOf: Name -> nat,
                 records: map<Name, nat>, name: Name, page: nat)
    requires Finds(ess, listOf, addressOf, records) && AllDistinct(ess)
    requires list == listOf(name) < |ess| == |ess'| && ess' == ess[list := ess'[list]]
    requires Gained(ess[list], ess'[list], addressOf(name), name, page)
    ensures AllDistinct(ess') && Finds(ess', listOf, addressOf, records[name := page])
  {
    hide Answer, View;
  }
}
