/** Packing delta lists into a page, opening a page, and searching it. */
module DeltaPage {
  import opened Bits
  import opened Numbers
  import opened DeltaCode
  import opened DeltaLayout
  import opened DeltaEntries
  import opened DeltaEntryIO
  import opened DeltaSearch
  import opened DeltaSave
  import opened DeltaMemory
  import opened DeltaIndexSpec
  import opened DeltaIndex
  import opened PageLayout
  import opened UdsStatus

  /** The lists that a page starting with list first may hold. */
  ghost function ListsFrom(bits: seq<seq<bool>>, first: nat, n: nat): (lists: seq<seq<bool>>)
    requires first + n + 1 < |bits|
    ensures |lists| == n
  {
    bits[first + 1..first + 1 + n]
  }

  /** How many lists fit on a page: as many as there is room for. */
  method CountLists(zone: Zone, size: nat, firstList: nat) returns (status: Status, n: nat)
    requires zone.Placed() && firstList <= |zone.lists| - 2
    ensures status == if 8 * size < TableOffset(2) + GUARD_BITS then Overflow else Success
    ensures status.Success? ==>
      && firstList + n <= |zone.lists| - 2 && FitsOnPage(ListsFrom(zone.Bits(), firstList, n), size)
      && (firstList + n < |zone.lists| - 2 ==> !FitsOnPage(ListsFrom(zone.Bits(), firstList, n + 1), size))
  {
    hide WellPlaced, Contents, Join;
    var numBits := 8 * size - TableOffset(1) - GUARD_BITS;
    if numBits < START_BITS {
      return Overflow, 0;
    }
    n := 0;
    NoList(zone.Bits(), firstList);
    while n < |zone.lists| - 2 - firstList
      invariant firstList + n <= |zone.lists| - 2
      invariant numBits == 8 * size - GUARD_BITS - PageStart(ListsFrom(zone.Bits(), firstList, n), n) >= 0
    {
      var bits := START_BITS + zone.lists[firstList + 1 + n].size;
      OneMoreList(zone.Bits(), firstList, n);
      WellPlacedList(zone.lists, zone.memory.Length, firstList + 1 + n);
      ListSize(zone.memory[..], zone.lists, firstList + 1 + n);
      if bits > numBits {
        break;
      }
      n := n + 1;
      numBits := numBits - bits;
    }
    return Success, n;
  }

  lemma ListSize(m: seq<Byte>, ls: seq<DeltaList>, k: nat)
    requires WellPlaced(ls, |m|) && k < |ls|
    ensures |Contents(m, ls)[k]| == ls[k].size
  {
  }

  lemma NoList(bits: seq<seq<bool>>, first: nat)
    requires first + 1 < |bits|
    ensures PageStart(ListsFrom(bits, first, 0), 0) == TableOffset(1)
  {
  }

  lemma OneMoreList(bits: seq<seq<bool>>, first: nat, n: nat)
    requires first + n + 2 < |bits|
    ensures PageStart(ListsFrom(bits, first, n + 1), n + 1)
      == PageStart(ListsFrom(bits, first, n), n) + START_BITS + |bits[first + 1 + n]|
  {
    var some, more := ListsFrom(bits, first, n), ListsFrom(bits, first, n + 1);
    assert some[..n] == some && more[..n + 1] == more && more[..n] == some && more[n] == bits[first + 1 + n];
  }

  /** The start of a list, as the offset table has it. */
  function StartOf(m: seq<Byte>, i: nat): nat
    requires TableOffset(i) / 8 + 4 <= |m|
  {
    Val(GetField(m, TableOffset(i), START_BITS))
  }

  lemma StartIs(m: seq<Byte>, i: nat, start: nat)
    requires TableOffset(i) / 8 + 4 <= |m| && start < Pow2(START_BITS)
    requires TableOffset(i + 1) <= 8 * |m| && Stream(m)[TableOffset(i)..TableOffset(i + 1)] == ToBits(start, START_BITS)
    ensures StartOf(m, i) == start
  {
    hide GetField, Stream, ToBits, Val;
    ValPadded(ToBits(start, START_BITS), 32 - START_BITS);
    ValOfBits(start, START_BITS);
  }

  lemma PageBounds(lists: seq<seq<bool>>, size: nat, i: nat)
    requires FitsOnPage(lists, size) && size <= MAX_PAGE_SIZE && i <= |lists|
    ensures PageStart(lists, i) < Pow2(START_BITS) && |lists| < Pow2(16)
    ensures TableOffset(i) / 8 + 4 <= size && PageStart(lists, i) <= 8 * size - GUARD_BITS
  {
    hide Join, Pow2;
    StartsGrow(lists, 0, |lists|);
    StartsGrow(lists, i, |lists|);
    Pow2Values();
    Pow2Add(3, 16);
    Pow2Page();
    assert lists[..0] == [] && |Join([])| == 0 by { EmptyJoin(); }
  }

  lemma Pow2Page()
    ensures Pow2(16) == 65536 && Pow2(START_BITS) == 524288
  {
    Pow2Values();
    Pow2Add(4, 4);
    Pow2Add(8, 8);
    Pow2Add(3, 16);
  }

  method WriteHeader(page: array<Byte>, h: Header)
    requires HEADER_BYTES <= page.Length
    modifies page
    ensures Stream(page[..]) == Splice(old(Stream(page[..])), 0, HeaderCode(h))
  {
    hide Stream, Splice, ToBits;
    ghost var s := Stream(page[..]);
    var a, b, c, d := ToBits(h.nonce, 64), ToBits(h.chapter, 64), ToBits(h.firstList, 16), ToBits(h.numLists, 16);
    StoreLE(page, 0, a);
    StoreLE(page, 8, b);
    SpliceTwice(s, 0, a, b);
    StoreLE(page, 16, c);
    SpliceTwice(s, 0, a + b, c);
    StoreLE(page, 18, d);
    SpliceTwice(s, 0, a + b + c, d);
  }

  /** Write the offset table from the sizes of the lists. */
  method WriteTable(zone: Zone, page: array<Byte>, size: nat, firstList: nat, numLists: nat, ghost h: Header,
      ghost s: seq<bool>)
    requires zone.Placed() && page != zone.memory && size <= page.Length && size <= MAX_PAGE_SIZE
    requires firstList + numLists <= |zone.lists| - 2 && FitsOnPage(ListsFrom(zone.Bits(), firstList, numLists), size)
    requires |s| == 8 * page.Length && Stream(page[..]) == Splice(s, 0, HeaderCode(h))
    modifies page
    ensures zone.Placed() && zone.Bits() == old(zone.Bits())
    ensures TableOffset(numLists + 1) <= |s|
    ensures Stream(page[..]) ==
      Splice(s, 0, HeaderCode(h) + Table(ListsFrom(zone.Bits(), firstList, numLists), numLists + 1))
  {
    hide WellPlaced, Contents, Join, Stream, Splice, ToBits, Pow2, PageStart, HeaderCode;
    ghost var lists := ListsFrom(zone.Bits(), firstList, numLists);
    var offset := TableOffset(numLists + 1);
    FirstStart(lists);
    PageBounds(lists, size, 0);
    WriteNumber(offset, page, TableOffset(0), START_BITS);
    SpliceTwice(s, 0, HeaderCode(h), ToBits(offset, START_BITS));
    assert Table(lists, 1) == ToBits(offset, START_BITS);
    for i := 0 to numLists
      invariant zone.Placed() && zone.Bits() == old(zone.Bits()) && offset == PageStart(lists, i)
      invariant TableOffset(i + 1) <= |s| && Stream(page[..]) == Splice(s, 0, HeaderCode(h) + Table(lists, i + 1))
    {
      WellPlacedList(zone.lists, zone.memory.Length, firstList + 1 + i);
      ListSize(zone.memory[..], zone.lists, firstList + 1 + i);
      NextStart(lists, i);
      PageBounds(lists, size, i + 1);
      offset := offset + zone.lists[firstList + 1 + i].size;
      WriteNumber(offset, page, TableOffset(i + 1), START_BITS);
      SpliceTwice(s, 0, HeaderCode(h) + Table(lists, i + 1), ToBits(offset, START_BITS));
      MoreTable(h, lists, i + 2);
    }
  }

  lemma FirstStart(lists: seq<seq<bool>>)
    ensures PageStart(lists, 0) == TableOffset(|lists| + 1)
  {
  }

  lemma NextStart(lists: seq<seq<bool>>, i: nat)
    requires i < |lists|
    ensures PageStart(lists, i + 1) == PageStart(lists, i) + |lists[i]|
  {
    JoinAt(lists, i);
  }

  lemma MoreTable(h: Header, lists: seq<seq<bool>>, n: nat)
    requires 0 < n <= |lists| + 1
    ensures HeaderCode(h) + Table(lists, n) ==
      HeaderCode(h) + Table(lists, n - 1) + ToBits(PageStart(lists, n - 1), START_BITS)
  {
  }

  /** Copy the lists behind the table. */
  method CopyLists(zone: Zone, page: array<Byte>, size: nat, firstList: nat, numLists: nat, ghost h: Header,
      ghost s: seq<bool>)
    requires zone.Placed() && page != zone.memory && size <= page.Length && size <= MAX_PAGE_SIZE
    requires firstList + numLists <= |zone.lists| - 2 && FitsOnPage(ListsFrom(zone.Bits(), firstList, numLists), size)
    requires |s| == 8 * page.Length && TableOffset(numLists + 1) <= |s|
    requires Stream(page[..]) ==
      Splice(s, 0, HeaderCode(h) + Table(ListsFrom(zone.Bits(), firstList, numLists), numLists + 1))
    modifies page
    ensures zone.Placed() && zone.Bits() == old(zone.Bits())
    ensures var code := PageCode(h, ListsFrom(zone.Bits(), firstList, numLists));
      |code| <= |s| && Stream(page[..]) == Splice(s, 0, code)
  {
    hide WellPlaced, Contents, Join, Stream, Splice, ToBits, Pow2, PageStart, HeaderCode, Table, StartOf, Copied;
    ghost var lists := ListsFrom(zone.Bits(), firstList, numLists);
    ghost var front := HeaderCode(h) + Table(lists, numLists + 1);
    NoneCopied(page[..], s, h, lists);
    for i := 0 to numLists
      invariant zone.Placed() && zone.Bits() == old(zone.Bits())
      invariant Copied(page[..], s, h, lists, i)
    {
      WellPlacedList(zone.lists, zone.memory.Length, firstList + 1 + i);
      ListSize(zone.memory[..], zone.lists, firstList + 1 + i);
      ListIsThere(zone.memory[..], zone.lists, firstList + 1 + i);
      NextStart(lists, i);
      PageBounds(lists, size, i);
      PageBounds(lists, size, i + 1);
      CopiedTable(page[..], s, h, lists, size, i);
      var l := zone.lists[firstList + 1 + i];
      var start := StartOf(page[..], i);
      ghost var m := page[..];
      MoveBits(zone.memory, l.start, page, start, l.size);
      CopiedMore(m, page[..], s, h, lists, i);
    }
    AllCopied(page[..], s, h, lists);
  }

  ghost predicate Copied(m: seq<Byte>, s: seq<bool>, h: Header, lists: seq<seq<bool>>, i: nat)
    requires i <= |lists|
  {
    && PageStart(lists, i) <= |s|
    && |HeaderCode(h) + Table(lists, |lists| + 1) + Join(lists[..i])| == PageStart(lists, i)
    && Stream(m) == Splice(s, 0, HeaderCode(h) + Table(lists, |lists| + 1) + Join(lists[..i]))
  }

  lemma NoneCopied(m: seq<Byte>, s: seq<bool>, h: Header, lists: seq<seq<bool>>)
    requires TableOffset(|lists| + 1) <= |s| && Stream(m) == Splice(s, 0, HeaderCode(h) + Table(lists, |lists| + 1))
    ensures Copied(m, s, h, lists, 0)
  {
    hide Stream, Splice, HeaderCode, Table;
    var front := HeaderCode(h) + Table(lists, |lists| + 1);
    assert lists[..0] == [] && front + Join([]) == front;
  }

  lemma CopiedMore(m: seq<Byte>, m': seq<Byte>, s: seq<bool>, h: Header, lists: seq<seq<bool>>, i: nat)
    requires i < |lists| && Copied(m, s, h, lists, i) && PageStart(lists, i) + |lists[i]| <= |s| == 8 * |m|
    requires Stream(m') == Splice(Stream(m), PageStart(lists, i), lists[i])
    ensures Copied(m', s, h, lists, i + 1)
  {
    hide Stream, Splice, HeaderCode, Table;
    NextStart(lists, i);
    var code := HeaderCode(h) + Table(lists, |lists| + 1) + Join(lists[..i]);
    SpliceTwice(s, 0, code, lists[i]);
    assert lists[..i + 1][..i] == lists[..i];
    assert code + lists[i] == HeaderCode(h) + Table(lists, |lists| + 1) + Join(lists[..i + 1]);
  }

  lemma AllCopied(m: seq<Byte>, s: seq<bool>, h: Header, lists: seq<seq<bool>>)
    requires Copied(m, s, h, lists, |lists|)
    ensures var code := PageCode(h, lists);
      |code| == PageStart(lists, |lists|) <= |s| && Stream(m) == Splice(s, 0, code)
  {
    hide Stream, Splice, HeaderCode, Table;
    assert lists[..|lists|] == lists;
  }

  /** The offset table is there while the lists are being copied. */
  lemma CopiedTable(m: seq<Byte>, s: seq<bool>, h: Header, lists: seq<seq<bool>>, size: nat, i: nat)
    requires i < |lists| && Copied(m, s, h, lists, i) && size <= |m| && |s| == 8 * |m|
    requires FitsOnPage(lists, size) && size <= MAX_PAGE_SIZE
    ensures TableOffset(i) / 8 + 4 <= |m| && StartOf(m, i) == PageStart(lists, i)
  {
    hide Stream, Splice, HeaderCode, Table, ToBits, StartOf, Pow2, Join;
    PageBounds(lists, size, i);
    var front, joined := HeaderCode(h) + Table(lists, |lists| + 1), Join(lists[..i]);
    CodeParts(h, lists, i);
    SpliceHolds(s, 0, front + joined);
    SubSlice(Stream(m), 0, |front + joined|, TableOffset(i), TableOffset(i + 1));
    InFront(front, joined, Join(lists), TableOffset(i), TableOffset(i + 1));
    StartIs(m, i, PageStart(lists, i));
  }

  lemma InFront<T>(a: seq<T>, b: seq<T>, c: seq<T>, from: nat, to: nat)
    requires from <= to <= |a|
    ensures (a + b)[from..to] == (a + c)[from..to]
  {
    assert (a + b)[from..to] == a[from..to] == (a + c)[from..to];
  }

  lemma ListIsThere(m: seq<Byte>, ls: seq<DeltaList>, k: nat)
    requires WellPlaced(ls, |m|) && k < |ls|
    ensures ls[k].End() <= 8 * |m| && Stream(m)[ls[k].start..ls[k].End()] == Contents(m, ls)[k]
  {
  }

  /** Pack as many lists as fit, from the first list on, into a page. */
  method Pack(index: DeltaIndexZone, page: array<Byte>, size: nat, nonce: nat, chapter: nat, firstList: nat)
    returns (status: Status, numLists: nat)
    requires index.Valid() && page != index.zone.memory && size <= page.Length && size <= MAX_PAGE_SIZE
    requires nonce < Pow2(64) && chapter < Pow2(64) && firstList < Pow2(16)
    modifies page
    ensures index.Valid() && index.zone.Bits() == old(index.zone.Bits())
    ensures status == if firstList > |index.entries| then BadState
      else if 8 * size < TableOffset(2) + GUARD_BITS then Overflow else Success
    ensures !status.Success? ==> page[..] == old(page[..])
    ensures status.Success? ==>
      && firstList + numLists <= |index.entries| && numLists < Pow2(16)
      && FitsOnPage(ListsFrom(index.zone.Bits(), firstList, numLists), size)
      && (firstList + numLists < |index.entries| ==>
            !FitsOnPage(ListsFrom(index.zone.Bits(), firstList, numLists + 1), size))
      && Stream(page[..]) ==
          Packed(old(Stream(page[..])), size, Header(nonce, chapter, firstList, numLists),
          ListsFrom(index.zone.Bits(), firstList, numLists))
      && IsPacked(page[..], size, Header(nonce, chapter, firstList, numLists),
          ListsFrom(index.zone.Bits(), firstList, numLists))
  {
    hide WellPlaced, Contents, Join, Stream, Splice, ToBits, Pow2, PageStart, HeaderCode, Table, AllGood, Snapshot,
      IsFormat, Guard;
    numLists := 0;
    if firstList > |index.zone.lists| - 2 {
      return BadState, numLists;
    }
    status, numLists := CountLists(index.zone, size, firstList);
    if !status.Success? {
      return;
    }
    ghost var s, lists := Stream(page[..]), ListsFrom(index.zone.Bits(), firstList, numLists);
    PageBounds(lists, size, 0);
    ghost var h := Header(nonce, chapter, firstList, numLists);
    WriteHeader(page, Header(nonce, chapter, firstList, numLists));
    WriteTable(index.zone, page, size, firstList, numLists, h, s);
    CopyLists(index.zone, page, size, firstList, numLists, h, s);
    GuardIs();
    StoreLE(page, size - POST_FIELD_GUARD_BYTES, seq(56, _ => true));
  }

  lemma GuardIs()
    ensures Guard() == seq(56, _ => true)
  {
  }

  // ----- Opening a page -----

  function ReadHeader(m: seq<Byte>): Header
    requires HEADER_BYTES <= |m|
  {
    Header(Val(LoadLE(m, 0, 8)), Val(LoadLE(m, 8, 8)), Val(LoadLE(m, 16, 2)), Val(LoadLE(m, 18, 2)))
  }

  /** The header as it is on a machine of the other byte order. */
  function ReadSwappedHeader(m: seq<Byte>): Header
    requires HEADER_BYTES <= |m|
  {
    Header(SwappedVal(m[0..8]), SwappedVal(m[8..16]), SwappedVal(m[16..18]), SwappedVal(m[18..20]))
  }

  /** The number that bytes make up, most significant byte first. */
  function SwappedVal(bytes: seq<Byte>): nat {
    if bytes == [] then 0 else 256 * SwappedVal(bytes[..|bytes| - 1]) + Val(bytes[|bytes| - 1])
  }

  /** The number of lists that the size check of verifyDeltaIndexPage admits. */
  function MaxLists(size: nat): nat
    requires size >= HEADER_BYTES
  {
    (size - HEADER_BYTES) * CHAR_BIT / START_BITS
  }

  /** Entry i of the offset table is read as a field of a word within the first length
      bytes. */
  predicate Readable(length: nat, i: nat) {
    TableOffset(i) / 8 + 4 <= length
  }

  /** The offset table can be read within the page if and only if its last entry begins
      before the last three bytes. */
  lemma ReadableExactly(size: nat, numLists: nat)
    requires size >= 3
    ensures (forall i :: 0 <= i <= numLists ==> Readable(size, i)) <==> TableOffset(numLists) < 8 * (size - 3)
  {
    if Readable(size, numLists) {
      forall i | 0 <= i <= numLists
        ensures Readable(size, i)
      {
        EarlierReadable(size, i, numLists);
      }
    }
  }

  lemma EarlierReadable(length: nat, i: nat, j: nat)
    requires i <= j && Readable(length, j)
    ensures Readable(length, i)
  {
  }

  /** The size check admits more: a page of 4096 bytes may claim to have 1716 lists, and
      the entry of the last one is read up to three bytes behind the page. */
  lemma TableBehindPage()
    ensures 1716 <= MaxLists(4096) && !Readable(4096, 1716) && TableOffset(1716) / 8 + 4 == 4096 + 3
  {
  }

  /** The lists of a page lie in order between the offset table and the guard bytes,
      which are all ones. */
  ghost predicate IsPage(m: seq<Byte>, size: nat, numLists: nat)
    requires HEADER_BYTES + POST_FIELD_GUARD_BYTES <= size <= |m|
  {
    && numLists <= MaxLists(size) && TableOffset(numLists + 1) + GUARD_BITS <= 8 * size
    && StartOf(m, 0) == TableOffset(numLists + 1)
    && (forall i :: 0 <= i < numLists ==> InOrderAt(m, i))
    && StartOf(m, numLists) <= 8 * (size - POST_FIELD_GUARD_BYTES)
    && (forall a :: size - POST_FIELD_GUARD_BYTES <= a < size ==> m[a] == AllOnes())
  }

  /** List i does not start behind the next one, as far as that can be read. */
  predicate InOrderAt(m: seq<Byte>, i: nat) {
    Readable(|m|, i) && Readable(|m|, i + 1) ==> StartOf(m, i) <= StartOf(m, i + 1)
  }

  function AllOnes(): Byte {
    [true, true, true, true, true, true, true, true]
  }

  /** What the check of a page comes to: it passes, it fails, or it reads behind the
      memory that it was given. */
  datatype Verdict = Good | Bad | Outside

  /** All checks before that of an entry that cannot be read pass. */
  ghost predicate ReadsOutside(m: seq<Byte>, size: nat, numLists: nat)
    requires HEADER_BYTES + POST_FIELD_GUARD_BYTES <= size <= |m|
  {
    && numLists <= MaxLists(size) && !Readable(|m|, numLists)
    && StartOf(m, 0) == TableOffset(numLists + 1)
    && forall i :: 0 <= i < numLists ==> InOrderAt(m, i)
  }

  /** If the lists are in order, they start behind the table. */
  lemma {:induction false} InOrderBelow(m: seq<Byte>, n: nat)
    requires Readable(|m|, n) && forall i :: 0 <= i < n ==> InOrderAt(m, i)
    ensures Readable(|m|, 0) && StartOf(m, 0) <= StartOf(m, n)
  {
    hide StartOf;
    if n > 0 {
      EarlierReadable(|m|, n - 1, n);
      InOrderBelow(m, n - 1);
      assert InOrderAt(m, n - 1);
    }
  }

  /** The check of a page. It passes if and only if the page is one. It reads behind the
      memory only if the header claims more lists than have readable entries. */
  method VerifyPage(m: array<Byte>, size: nat, nonce: nat, numLists: nat, expectedNonce: nat) returns (verdict: Verdict)
    requires HEADER_BYTES + POST_FIELD_GUARD_BYTES <= size <= m.Length
    ensures verdict.Good? <==> nonce == expectedNonce && IsPage(m[..], size, numLists)
    ensures verdict.Outside? <==> nonce == expectedNonce && ReadsOutside(m[..], size, numLists)
  {
    hide StartOf, MaxLists;
    if nonce != expectedNonce {
      return Bad;
    }
    if numLists > MaxLists(size) {
      return Bad;
    }
    if StartOf(m[..], 0) != TableOffset(numLists + 1) {
      return Bad;
    }
    for i := 0 to numLists
      invariant forall k :: 0 <= k < i ==> InOrderAt(m[..], k)
      invariant Readable(m.Length, i)
    {
      if !Readable(m.Length, i + 1) {
        NoneReadable(m[..], size, numLists, i);
        return Outside;
      }
      if StartOf(m[..], i) > StartOf(m[..], i + 1) {
        assert !InOrderAt(m[..], i);
        return Bad;
      }
    }
    if StartOf(m[..], numLists) > (size - POST_FIELD_GUARD_BYTES) * CHAR_BIT {
      return Bad;
    }
    InOrderBelow(m[..], numLists);
    for i := 0 to POST_FIELD_GUARD_BYTES
      invariant forall a :: size - POST_FIELD_GUARD_BYTES <= a < size - POST_FIELD_GUARD_BYTES + i ==> m[a] == AllOnes()
    {
      if m[size - POST_FIELD_GUARD_BYTES + i] != AllOnes() {
        return Bad;
      }
    }
    return Good;
  }

  /** Once an entry cannot be read, nothing is said of the later ones. */
  lemma NoneReadable(m: seq<Byte>, size: nat, numLists: nat, n: nat)
    requires HEADER_BYTES + POST_FIELD_GUARD_BYTES <= size <= |m| && n < numLists && !Readable(|m|, n + 1)
    requires forall k :: 0 <= k < n ==> InOrderAt(m, k)
    ensures !Readable(|m|, numLists) && !IsPage(m, size, numLists)
    ensures forall k :: 0 <= k < numLists ==> InOrderAt(m, k)
  {
    hide StartOf, Readable;
    LaterUnreadable(|m|, n + 1, numLists);
    TableUnreadable(m, size, numLists);
    forall k | 0 <= k < numLists
      ensures InOrderAt(m, k)
    {
      if k >= n {
        LaterUnreadable(|m|, n + 1, k + 1);
      }
    }
  }

  lemma LaterUnreadable(length: nat, i: nat, j: nat)
    requires i <= j && !Readable(length, i)
    ensures !Readable(length, j)
  {
  }

  lemma TableUnreadable(m: seq<Byte>, size: nat, numLists: nat)
    requires HEADER_BYTES + POST_FIELD_GUARD_BYTES <= size <= |m| && !Readable(|m|, numLists)
    ensures !IsPage(m, size, numLists)
  {
  }

  /** The bits of a page with a header and a table all of whose entries are the same. */
  function ClaimedBit(h: Header, start: nat, x: nat): bool {
    if x < HEADER_BITS then HeaderCode(h)[x] else ToBits(start, START_BITS)[(x - HEADER_BITS) % START_BITS]
  }

  function ClaimedByte(h: Header, start: nat, a: nat): Byte {
    [ClaimedBit(h, start, 8 * a), ClaimedBit(h, start, 8 * a + 1), ClaimedBit(h, start, 8 * a + 2),
     ClaimedBit(h, start, 8 * a + 3), ClaimedBit(h, start, 8 * a + 4), ClaimedBit(h, start, 8 * a + 5),
     ClaimedBit(h, start, 8 * a + 6), ClaimedBit(h, start, 8 * a + 7)]
  }

  /** For every header that passes the size check and claims a list whose entry cannot be
      read, some page with that header makes the check read behind the page, if the end
      of the table fits into an entry. */
  lemma ChecksBehindPage(m: seq<Byte>, h: Header)
    requires HEADER_BYTES + POST_FIELD_GUARD_BYTES <= |m| && IsHeader(h)
    requires h.numLists <= MaxLists(|m|) && !Readable(|m|, h.numLists)
    requires TableOffset(h.numLists + 1) < Pow2(START_BITS)
    requires forall a :: 0 <= a < |m| ==> m[a] == ClaimedByte(h, TableOffset(h.numLists + 1), a)
    ensures ReadHeader(m) == h && ReadsOutside(m, |m|, h.numLists)
  {
    hide StartOf, ToBits, Val, GetField, Pow2, ClaimedByte, ReadHeader, IsHeader;
    var start := TableOffset(h.numLists + 1);
    forall i | 0 <= i <= h.numLists && Readable(|m|, i)
      ensures StartOf(m, i) == start
    {
      SameEntries(m, h, start, i);
    }
    assert Readable(|m|, 0);
    assert forall i :: 0 <= i < h.numLists ==> InOrderAt(m, i);
    ClaimedHeader(m, h, start);
    HeaderIs(m, h);
  }

  lemma ClaimedHeader(m: seq<Byte>, h: Header, start: nat)
    requires HEADER_BYTES <= |m| && forall a :: 0 <= a < |m| ==> m[a] == ClaimedByte(h, start, a)
    ensures Stream(m)[..HEADER_BITS] == HeaderCode(h)
  {
    hide HeaderCode, Stream, ClaimedByte;
    forall x | 0 <= x < HEADER_BITS
      ensures Stream(m)[x] == HeaderCode(h)[x]
    {
      ClaimedInStream(m, h, start, x);
    }
  }

  lemma SameEntries(m: seq<Byte>, h: Header, start: nat, i: nat)
    requires forall a :: 0 <= a < |m| ==> m[a] == ClaimedByte(h, start, a)
    requires Readable(|m|, i) && start < Pow2(START_BITS)
    ensures StartOf(m, i) == start
  {
    hide Pow2, Val, ToBits, StartOf, Stream, ClaimedBit, ClaimedByte;
    var bits := Stream(m)[TableOffset(i)..TableOffset(i + 1)];
    forall k | 0 <= k < START_BITS
      ensures bits[k] == ToBits(start, START_BITS)[k]
    {
      assert bits[k] == Stream(m)[TableOffset(i) + k];
      ClaimedInStream(m, h, start, TableOffset(i) + k);
      ClaimedInTable(h, start, i, k);
    }
    assert bits == ToBits(start, START_BITS);
    StartIs(m, i, start);
  }

  lemma ClaimedInTable(h: Header, start: nat, i: nat, k: nat)
    requires k < START_BITS
    ensures ClaimedBit(h, start, TableOffset(i) + k) == ToBits(start, START_BITS)[k]
  {
    hide ToBits;
    assert (19 * i + k) % 19 == k;
  }

  lemma ClaimedInStream(m: seq<Byte>, h: Header, start: nat, x: nat)
    requires x < 8 * |m| && m[x / 8] == ClaimedByte(h, start, x / 8)
    ensures Stream(m)[x] == ClaimedBit(h, start, x)
  {
    hide ClaimedBit;
  }

  predicate InvalidParameters(meanDelta: nat, payloadBits: nat) {
    meanDelta < 10 || meanDelta > 0x200_0000 || payloadBits > MAX_FIELD_BITS
  }

  /** Whether the memory is a page with this header. */
  ghost predicate IsPageWith(m: seq<Byte>, size: nat, h: Header, nonce: nat)
    requires HEADER_BYTES + POST_FIELD_GUARD_BYTES <= size <= |m|
  {
    h.nonce == nonce && IsPage(m, size, h.numLists)
  }

  /** Whether the check of a page with this header reads behind the memory. */
  ghost predicate ReadsOutsideWith(m: seq<Byte>, size: nat, h: Header, nonce: nat)
    requires HEADER_BYTES + POST_FIELD_GUARD_BYTES <= size <= |m|
  {
    h.nonce == nonce && ReadsOutside(m, size, h.numLists)
  }

  /** Open a page, if it is one in either byte order. The check of the second header is
      made only if the first one fails. */
  method OpenPage(m: array<Byte>, size: nat, expectedNonce: nat, meanDelta: nat, payloadBits: nat)
    returns (status: Status, h: Header, outside: bool)
    requires HEADER_BYTES + POST_FIELD_GUARD_BYTES <= size <= m.Length
    ensures outside <==>
      && var a, b := ReadHeader(m[..]), ReadSwappedHeader(m[..]);
      && !InvalidParameters(meanDelta, payloadBits)
      && (ReadsOutsideWith(m[..], size, a, expectedNonce) ||
            (!IsPageWith(m[..], size, a, expectedNonce) && ReadsOutsideWith(m[..], size, b, expectedNonce)))
    ensures !outside ==>
      var a, b := ReadHeader(m[..]), ReadSwappedHeader(m[..]);
      && status == (if InvalidParameters(meanDelta, payloadBits) then InvalidArgument
                    else if IsPageWith(m[..], size, a, expectedNonce) || IsPageWith(m[..], size, b, expectedNonce)
                    then Success else CorruptComponent)
      && (status.Success? ==> h == if IsPageWith(m[..], size, a, expectedNonce) then a else b)
    ensures !InvalidParameters(meanDelta, payloadBits) && IsPageWith(m[..], size, ReadHeader(m[..]), expectedNonce) ==>
      !outside && status.Success?
  {
    hide IsPage, ReadsOutside, LoadLE, Val, SwappedVal, MaxLists, StartOf;
    h, outside := Header(0, 0, 0, 0), false;
    if InvalidParameters(meanDelta, payloadBits) {
      return InvalidArgument, h, false;
    }
    h := ReadHeader(m[..]);
    var verdict := VerifyPage(m, size, h.nonce, h.numLists, expectedNonce);
    if verdict.Bad? {
      h := ReadSwappedHeader(m[..]);
      verdict := VerifyPage(m, size, h.nonce, h.numLists, expectedNonce);
    }
    outside := verdict.Outside?;
    status := if verdict.Good? then Success else CorruptComponent;
  }

  /** A page of 4096 bytes that claims to have 1716 lists is checked by reading behind it. */
  method OpensBehindPage(nonce: nat, meanDelta: nat, payloadBits: nat)
    returns (page: array<Byte>, status: Status, outside: bool)
    requires nonce < Pow2(64) && !InvalidParameters(meanDelta, payloadBits)
    ensures page.Length == 4096 && ReadHeader(page[..]) == Header(nonce, 0, 0, 1716) && outside
  {
    hide StartOf, Pow2, ClaimedByte, ReadHeader, ReadSwappedHeader, InOrderAt;
    var h, start := Header(nonce, 0, 0, 1716), TableOffset(1717);
    TableBehindPage();
    Pow2Page();
    page := new Byte[4096](a => if a < 0 then AllOnes() else ClaimedByte(h, start, a));
    ChecksBehindPage(page[..], h);
    var header;
    status, header, outside := OpenPage(page, 4096, nonce, meanDelta, payloadBits);
  }

  /** The page that Pack makes. */
  ghost predicate IsPacked(m: seq<Byte>, size: nat, h: Header, lists: seq<seq<bool>>) {
    && FitsOnPage(lists, size) && size <= |m| && size <= MAX_PAGE_SIZE && IsHeader(h) && h.numLists == |lists|
    && exists s: seq<bool> :: 8 * size <= |s| && Stream(m) == Packed(s, size, h, lists)
  }

  /** Its offset table and its lists can be read back. */
  lemma PackedList(m: seq<Byte>, size: nat, h: Header, lists: seq<seq<bool>>, i: nat)
    requires IsPacked(m, size, h, lists) && i <= |lists|
    ensures TableOffset(i) / 8 + 4 <= size && StartOf(m, i) == PageStart(lists, i)
    ensures PageStart(lists, i) + GUARD_BITS <= 8 * size
    ensures i < |lists| ==>
      && PageStart(lists, i) + |lists[i]| == PageStart(lists, i + 1) <= 8 * size
      && Stream(m)[PageStart(lists, i)..PageStart(lists, i + 1)] == lists[i]
  {
    hide Packed, PageStart, StartOf, ToBits, Pow2, Stream, HeaderCode, Guard;
    var s: seq<bool> :| 8 * size <= |s| && Stream(m) == Packed(s, size, h, lists);
    PageParts(h, lists, s, size, i);
    PageBounds(lists, size, i);
    StartIs(m, i, PageStart(lists, i));
  }

  lemma PackedHeader(m: seq<Byte>, size: nat, h: Header, lists: seq<seq<bool>>)
    requires IsPacked(m, size, h, lists)
    ensures HEADER_BYTES <= |m| && ReadHeader(m) == h
  {
    hide Packed, StartOf, Stream, Guard, PageCode, Join;
    var s: seq<bool> :| 8 * size <= |s| && Stream(m) == Packed(s, size, h, lists);
    PageParts(h, lists, s, size, 0);
    HeaderIs(m, h);
  }

  /** A header is read as it was written. */
  lemma HeaderIs(m: seq<Byte>, h: Header)
    requires HEADER_BYTES <= |m| && IsHeader(h) && Stream(m)[..HEADER_BITS] == HeaderCode(h)
    ensures ReadHeader(m) == h
  {
    hide ToBits, Pow2, Stream, LoadLE, Val;
    var a, b, c, d := ToBits(h.nonce, 64), ToBits(h.chapter, 64), ToBits(h.firstList, 16), ToBits(h.numLists, 16);
    HeaderParts(Stream(m), a, b, c, d);
    ValOfBits(h.nonce, 64);
    ValOfBits(h.chapter, 64);
    ValOfBits(h.firstList, 16);
    ValOfBits(h.numLists, 16);
  }

  lemma HeaderParts(s: seq<bool>, a: seq<bool>, b: seq<bool>, c: seq<bool>, d: seq<bool>)
    requires |s| >= 160 && s[..160] == a + b + c + d && |a| == |b| == 64 && |c| == |d| == 16
    ensures s[0..64] == a && s[64..128] == b && s[128..144] == c && s[144..160] == d
  {
    var t := a + b + c + d;
    assert s[0..64] == t[0..64] && s[64..128] == t[64..128] && s[128..144] == t[128..144] && s[144..160] == t[144..160];
  }

  /** A packed page passes the check, and its header is the one it was given. */
  lemma PackedOpens(m: seq<Byte>, size: nat, h: Header, lists: seq<seq<bool>>)
    requires IsPacked(m, size, h, lists)
    ensures HEADER_BYTES + POST_FIELD_GUARD_BYTES <= size <= |m| && ReadHeader(m) == h
    ensures IsPageWith(m, size, h, h.nonce) && forall i :: 0 <= i <= |lists| ==> Readable(size, i)
  {
    hide Packed, StartOf, Stream, Guard, ReadHeader, Join;
    PackedHeader(m, size, h, lists);
    forall i | 0 <= i <= |lists|
      ensures Readable(size, i) && StartOf(m, i) == PageStart(lists, i)
      ensures i < |lists| ==> PageStart(lists, i) <= PageStart(lists, i + 1)
    {
      PackedList(m, size, h, lists, i);
    }
    forall i | 0 <= i < |lists|
      ensures InOrderAt(m, i)
    {
      assert Readable(size, i) && Readable(size, i + 1);
    }
    PackedList(m, size, h, lists, |lists|);
    FirstStart(lists);
    StartsGrow(lists, 0, |lists|);
    PackedGuard(m, size, h, lists);
  }

  lemma PackedGuard(m: seq<Byte>, size: nat, h: Header, lists: seq<seq<bool>>)
    requires IsPacked(m, size, h, lists) && POST_FIELD_GUARD_BYTES <= size
    ensures forall a :: size - POST_FIELD_GUARD_BYTES <= a < size ==> m[a] == AllOnes()
  {
    hide Packed, StartOf, Stream, PageStart, HeaderCode, Guard;
    var s: seq<bool> :| 8 * size <= |s| && Stream(m) == Packed(s, size, h, lists);
    PageParts(h, lists, s, size, 0);
    forall a | size - POST_FIELD_GUARD_BYTES <= a < size
      ensures m[a] == AllOnes()
    {
      GuardByte(m, size, a);
    }
  }

  lemma GuardByte(m: seq<Byte>, size: nat, a: nat)
    requires POST_FIELD_GUARD_BYTES <= size <= |m| && size - POST_FIELD_GUARD_BYTES <= a < size
    requires Stream(m)[8 * size - GUARD_BITS..8 * size] == Guard()
    ensures m[a] == AllOnes()
  {
    hide Stream;
    var guard := Stream(m)[8 * size - GUARD_BITS..8 * size];
    StreamByte(m, a);
    var byte := Stream(m)[8 * a..8 * a + 8];
    forall i | 0 <= i < 8
      ensures byte[i]
    {
      assert byte[i] == Stream(m)[8 * a + i] == guard[8 * a + i - (8 * size - GUARD_BITS)];
    }
  }

  // ----- Searching a page -----

  /** The temporary header of a list on a page. */
  function PageList(m: seq<Byte>, i: nat): DeltaList
    requires TableOffset(i + 1) / 8 + 4 <= |m|
    requires StartOf(m, i) <= StartOf(m, i + 1)
  {
    DeltaList(StartOf(m, i), StartOf(m, i + 1) - StartOf(m, i), 0, 0)
  }

  /** A packed list is stored on the page as it was in the open index. */
  lemma PackedStored(f: Format, m: seq<Byte>, size: nat, h: Header, lists: seq<seq<bool>>, i: nat, es: seq<Entry>)
    requires IsPacked(m, size, h, lists) && i < |lists| && IsFormat(f) && f.coding.incrKeys > 0
    requires WellFormed(f, es) && lists[i] == ListCode(f, es)
    ensures TableOffset(i + 1) / 8 + 4 <= |m| && StartOf(m, i) <= StartOf(m, i + 1) && Stored(f, m, PageList(m, i), es)
  {
    hide IsPacked, StartOf, Stream, PageStart, IsFormat, WellFormed, ListCode;
    PackedSize(m, size, h, lists);
    PackedList(m, size, h, lists, i);
    PackedList(m, size, h, lists, i + 1);
  }

  lemma PackedSize(m: seq<Byte>, size: nat, h: Header, lists: seq<seq<bool>>)
    requires IsPacked(m, size, h, lists)
    ensures size <= |m| && h.numLists == |lists|
  {
  }

  /** Find the entry of a name on a page, or the place where it belongs. */
  method SearchPage(f: Format, m: array<Byte>, numLists: nat, list: nat, key: nat, name: Name, ghost es: seq<Entry>)
    returns (status: Status, cur: Cursor)
    requires f.coding.incrKeys > 0
    requires list < numLists ==>
      TableOffset(list + 1) / 8 + 4 <= m.Length && StartOf(m[..], list) <= StartOf(m[..], list + 1) &&
        Stored(f, m[..], PageList(m[..], list), es)
    ensures status == if list < numLists then Success else CorruptData
    ensures status.Success? ==> cur.list == list && At(f, es, cur, Locate(es, key, name))
  {
    hide Stored, IsFormat, KeySum, SeekName, StartOf;
    cur := Cursor(list, 0, 0, 0, 0, false, false);
    if list >= numLists {
      return CorruptData, cur;
    }
    var l := PageList(m[..], list);
    ListStart(f, es);
    cur := SeekKey(f, m, l, cur, key, es, 0);
    if !cur.atEnd && key == cur.key {
      cur := SeekCollision(f, m, l, cur, name, es, Seek(es, key, 0));
    }
    return Success, cur;
  }

  /** The record page of a name, or -1. */
  method FindRecordPage(f: Format, m: array<Byte>, numLists: nat, list: nat, key: nat, name: Name, ghost es: seq<Entry>)
    returns (status: Status, recordPage: int)
    requires f.coding.incrKeys > 0
    requires list < numLists ==>
      TableOffset(list + 1) / 8 + 4 <= m.Length && StartOf(m[..], list) <= StartOf(m[..], list + 1) &&
        Stored(f, m[..], PageList(m[..], list), es)
    ensures status == if list < numLists then Success else CorruptData
    ensures status.Success? ==>
      recordPage == (var j := Locate(es, key, name); if j < |es| && KeyAt(es, j) == key then es[j].value else -1)
  {
    hide Stored, IsFormat, StartOf, Locate, GetField, Val, KeySum;
    var cur;
    status, cur := SearchPage(f, m, numLists, list, key, name, es);
    recordPage := -1;
    if status.Success? && !cur.atEnd && cur.key == key {
      var l := PageList(m[..], list);
      StoredValue(f, m[..], l, es, Locate(es, key, name));
      recordPage := Val(GetField(m[..], l.start + cur.offset, f.valueBits));
    }
  }

  /** Every list packed from an index is stored on the page with its entries. */
  lemma PackedFromIndex(index: DeltaIndexZone, m: seq<Byte>, size: nat, h: Header, list: nat)
    requires index.Valid() && h.firstList + h.numLists <= |index.entries| && list < h.numLists
    requires IsPacked(m, size, h, ListsFrom(index.zone.Bits(), h.firstList, h.numLists))
    ensures TableOffset(list + 1) / 8 + 4 <= |m| && StartOf(m, list) <= StartOf(m, list + 1)
    ensures Stored(index.format, m, PageList(m, list), index.entries[h.firstList + list])
  {
    hide IsPacked, StartOf, WellPlaced, Contents, Snapshot, IsFormat, Stored, AllGood, WellFormed, ListCode;
    var k := h.firstList + list;
    AllGoodParts(index.format, index.entries, index.zone.Bits(), index.zone.lists, k);
    PackedStored(index.format, m, size, h, ListsFrom(index.zone.Bits(), h.firstList, h.numLists), list,
      index.entries[k]);
  }

  /** The entry at a position is the same wherever it was found. */
  lemma SameEntry(f: Format, es: seq<Entry>, a: Cursor, b: Cursor, j: nat)
    requires f.coding.incrKeys > 0 && At(f, es, a, j) && At(f, es, b, j)
    ensures a.key == b.key && a.offset == b.offset && a.delta == b.delta && a.atEnd == b.atEnd &&
      a.isCollision == b.isCollision
    ensures !a.atEnd ==> a.entryBits == b.entryBits
  {
  }

  /** Packing an index and searching the page finds what searching the index finds. */
  method SearchesAgree(index: DeltaIndexZone, page: array<Byte>, size: nat, h: Header, list: nat, key: nat, name: Name)
    returns (inIndex: Cursor, onPage: Cursor)
    requires index.Valid() && h.firstList + h.numLists <= |index.entries| && list < h.numLists
    requires IsPacked(page[..], size, h, ListsFrom(index.zone.Bits(), h.firstList, h.numLists))
    modifies index.zone`lists, index.zone`flags, index.zone`numTransfers, index.zone`written
    ensures index.Valid() && index.entries == old(index.entries)
    ensures inIndex.list == h.firstList + list && onPage.list == list
    ensures inIndex == onPage.(list := inIndex.list, entryBits := inIndex.entryBits)
    ensures !inIndex.atEnd ==> inIndex.entryBits == onPage.entryBits
  {
    hide IsPacked, StartOf, DeltaIndexZone.DataValid, Stored, Locate;
    index.Basics();
    ghost var es := index.entries[h.firstList + list];
    PackedFromIndex(index, page[..], size, h, list);
    var status;
    status, inIndex := index.Get(h.firstList + list, key, name, true);
    status, onPage := SearchPage(index.format, page, h.numLists, list, key, name, es);
    SameEntry(index.format, es, inIndex, onPage, Locate(es, key, name));
  }
}
