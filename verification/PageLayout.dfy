/** Immutable delta index pages (uds/deltaIndex.c): a header, a table of 19-bit list
    offsets, the lists one after the other, and guard bytes at the end of the page. */
module PageLayout {
  import opened Bits
  import opened Numbers
  import opened DeltaCode
  import opened DeltaLayout

  const HEADER_BITS := 160
  const HEADER_BYTES := 20
  const START_BITS := 19
  /** The largest page whose offsets fit the table. */
  const MAX_PAGE_SIZE := 65536

  /** Nonce and chapter are 64-bit, the list numbers 16-bit. */
  datatype Header = Header(nonce: nat, chapter: nat, firstList: nat, numLists: nat)

  ghost predicate IsHeader(h: Header) {
    h.nonce < Pow2(64) && h.chapter < Pow2(64) && h.firstList < Pow2(16) && h.numLists < Pow2(16)
  }

  /** The bit offset of entry i of the offset table. */
  function TableOffset(i: nat): nat {
    HEADER_BITS + i * START_BITS
  }

  function HeaderCode(h: Header): (code: seq<bool>)
    ensures |code| == HEADER_BITS
  {
    ToBits(h.nonce, 64) + ToBits(h.chapter, 64) + ToBits(h.firstList, 16) + ToBits(h.numLists, 16)
  }

  function Join(lists: seq<seq<bool>>): seq<bool> {
    if lists == [] then [] else Join(lists[..|lists| - 1]) + lists[|lists| - 1]
  }

  /** Where list i starts on the page; list n starts where the last list ends. */
  function PageStart(lists: seq<seq<bool>>, i: nat): nat
    requires i <= |lists|
  {
    TableOffset(|lists| + 1) + |Join(lists[..i])|
  }

  /** The first n entries of the offset table. */
  function Table(lists: seq<seq<bool>>, n: nat): (code: seq<bool>)
    requires n <= |lists| + 1
    ensures |code| == n * START_BITS
  {
    if n == 0 then [] else Table(lists, n - 1) + ToBits(PageStart(lists, n - 1), START_BITS)
  }

  function PageCode(h: Header, lists: seq<seq<bool>>): seq<bool> {
    HeaderCode(h) + Table(lists, |lists| + 1) + Join(lists)
  }

  /** The lists fit on a page of the given size with their table and the guard bytes. */
  predicate FitsOnPage(lists: seq<seq<bool>>, size: nat) {
    PageStart(lists, |lists|) + GUARD_BITS <= 8 * size
  }

  function Guard(): (ones: seq<bool>) ensures |ones| == GUARD_BITS {
    seq(GUARD_BITS, _ => true)
  }

  /** What packing makes of the bits of a page. */
  function Packed(s: seq<bool>, size: nat, h: Header, lists: seq<seq<bool>>): seq<bool>
    requires FitsOnPage(lists, size) && 8 * size <= |s|
  {
    assert |PageCode(h, lists)| == PageStart(lists, |lists|) by { assert lists[..|lists|] == lists; }
    Splice(Splice(s, 0, PageCode(h, lists)), 8 * size - GUARD_BITS, Guard())
  }

  // ----- Where things are -----

  lemma {:induction false} JoinAt(lists: seq<seq<bool>>, i: nat)
    requires i < |lists|
    ensures |Join(lists[..i])| + |lists[i]| == |Join(lists[..i + 1])| <= |Join(lists)|
    ensures Join(lists)[|Join(lists[..i])|..|Join(lists[..i + 1])|] == lists[i]
  {
    var n := |lists| - 1;
    assert lists[..i + 1][..i] == lists[..i];
    assert lists[..|lists|] == lists;
    if i < n {
      JoinAt(lists[..n], i);
      assert lists[..n][..i] == lists[..i] && lists[..n][..i + 1] == lists[..i + 1];
      var a, b := |Join(lists[..i])|, |Join(lists[..i + 1])|;
      assert Join(lists)[a..b] == Join(lists[..n])[a..b];
    }
  }

  lemma {:induction false} TableAt(lists: seq<seq<bool>>, n: nat, i: nat)
    requires i < n <= |lists| + 1
    ensures Table(lists, n)[i * START_BITS..(i + 1) * START_BITS] == ToBits(PageStart(lists, i), START_BITS)
  {
    hide ToBits, PageStart;
    if i < n - 1 {
      TableAt(lists, n - 1, i);
      assert Table(lists, n)[i * START_BITS..(i + 1) * START_BITS] ==
        Table(lists, n - 1)[i * START_BITS..(i + 1) * START_BITS];
    }
  }

  lemma {:induction false} StartsGrow(lists: seq<seq<bool>>, i: nat, j: nat)
    requires i <= j <= |lists|
    ensures PageStart(lists, i) <= PageStart(lists, j)
    decreases j - i
  {
    if i < j {
      JoinAt(lists, i);
      StartsGrow(lists, i + 1, j);
    }
  }

  /** The parts of a packed page can be read back from its bits. */
  lemma PageParts(h: Header, lists: seq<seq<bool>>, s: seq<bool>, size: nat, i: nat)
    requires FitsOnPage(lists, size) && 8 * size <= |s| && i <= |lists|
    ensures |PageCode(h, lists)| == PageStart(lists, |lists|)
    ensures PageStart(lists, i) + GUARD_BITS <= 8 * size &&
      TableOffset(i + 1) <= PageStart(lists, 0) == TableOffset(|lists| + 1)
    ensures var p := Packed(s, size, h, lists);
      && p[..HEADER_BITS] == HeaderCode(h)
      && p[TableOffset(i)..TableOffset(i + 1)] == ToBits(PageStart(lists, i), START_BITS)
      && (i < |lists| ==> PageStart(lists, i) + |lists[i]| == PageStart(lists, i + 1) <= PageStart(lists, |lists|))
      && (i < |lists| ==> p[PageStart(lists, i)..PageStart(lists, i + 1)] == lists[i])
      && p[8 * size - GUARD_BITS..8 * size] == Guard()
  {
    hide ToBits, HeaderCode, Table, Join, Splice;
    var p, n := Packed(s, size, h, lists), |lists|;
    var code := PageCode(h, lists);
    assert lists[..n] == lists;
    StartsGrow(lists, i, n);
    CodeParts(h, lists, i);
    var s1 := Splice(s, 0, code);
    SpliceHolds(s1, 8 * size - GUARD_BITS, Guard());
    InCode(s, code, 8 * size - GUARD_BITS, Guard(), 0, HEADER_BITS);
    InCode(s, code, 8 * size - GUARD_BITS, Guard(), TableOffset(i), TableOffset(i + 1));
    if i < n {
      StartsGrow(lists, i + 1, n);
      InCode(s, code, 8 * size - GUARD_BITS, Guard(), PageStart(lists, i), PageStart(lists, i + 1));
    }
  }

  lemma InCode(s: seq<bool>, code: seq<bool>, at: nat, guard: seq<bool>, from: nat, to: nat)
    requires |code| <= at && at + |guard| <= |s| && from <= to <= |code|
    ensures Splice(Splice(s, 0, code), at, guard)[from..to] == code[from..to]
  {
    SpliceKeeps(Splice(s, 0, code), at, guard, from, to);
    SpliceHolds(s, 0, code);
    SubSlice(Splice(s, 0, code), 0, |code|, from, to);
  }

  lemma CodeParts(h: Header, lists: seq<seq<bool>>, i: nat)
    requires i <= |lists|
    ensures var code := PageCode(h, lists);
      && |code| == PageStart(lists, |lists|) && TableOffset(i + 1) <= PageStart(lists, 0) == TableOffset(|lists| + 1)
      && code[..HEADER_BITS] == HeaderCode(h)
      && code[TableOffset(i)..TableOffset(i + 1)] == ToBits(PageStart(lists, i), START_BITS)
      && (i < |lists| ==> PageStart(lists, i) + |lists[i]| == PageStart(lists, i + 1) <= |code|)
      && (i < |lists| ==> code[PageStart(lists, i)..PageStart(lists, i + 1)] == lists[i])
  {
    hide ToBits, HeaderCode, Table, Join;
    EmptyJoin();
    var code, n := PageCode(h, lists), |lists|;
    var front := HeaderCode(h) + Table(lists, n + 1);
    assert lists[..n] == lists && lists[..0] == [];
    TableAt(lists, n + 1, i);
    MiddlePart(HeaderCode(h), Table(lists, n + 1), Join(lists), i * START_BITS, (i + 1) * START_BITS);
    if i < n {
      JoinAt(lists, i);
      MiddlePart(front, Join(lists), [], |Join(lists[..i])|, |Join(lists[..i + 1])|);
      assert front + Join(lists) + [] == code;
    }
  }

  lemma EmptyJoin()
    ensures Join([]) == []
  {
  }

  lemma MiddlePart<T>(a: seq<T>, b: seq<T>, c: seq<T>, from: nat, to: nat)
    requires from <= to <= |b|
    ensures (a + b + c)[|a| + from..|a| + to] == b[from..to]
  {
  }
}
