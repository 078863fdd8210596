/** One zone of the master index. */
module MasterIndex {
  import opened Numbers
  import opened DeltaCode
  import opened DeltaEntries
  import opened DeltaSearch
  import opened DeltaIndexSpec
  import opened DeltaIndex
  import opened DeltaLayout
  import opened ChapterNumbers
  import opened LazyFlush
  import opened MasterAnswers
  import ChapterAnswers
  import opened DeltaMemory
  import opened UdsStatus

  /** A record of the master index, as a search fills it in. */
  datatype MasterRecord = MasterRecord(
    list: nat, key: nat, name: Name,
    cur: Cursor,            // where the entry is, or belongs
    isFound: bool,
    isCollision: bool,
    virtualChapter: nat)    // if found

  lemma AllRowsLive(d: Dated, flush: nat, modulus: nat, high: nat, low: nat)
    requires modulus > 0 && GoodDates(d, flush, modulus, high) && low <= flush
    ensures Live(Rows(d), low) == Rows(d)
  {
    AllLive(Rows(d), low);
  }

  lemma ExpiredModulus(flush: nat, low: nat, modulus: nat)
    requires modulus > 0 && flush < low
    ensures ExpiredRange(flush, low, modulus).modulus == modulus
  {
  }

  /** The stored values are the low bits of the chapters, which lie in the window
      and are not above the open chapter. */
  ghost predicate GoodDates(d: Dated, flush: nat, modulus: nat, high: nat)
    requires modulus > 0
  {
    && IsDated(d, modulus)
    && forall i :: 0 <= i < |d.chapters| ==> flush <= d.chapters[i] < flush + modulus && d.chapters[i] <= high
  }

  /** Only one list differs. */
  ghost predicate OnlyList(list: nat, ess: seq<seq<Entry>>, ess': seq<seq<Entry>>, css: seq<seq<nat>>,
      css': seq<seq<nat>>)
  {
    && list < |ess| == |ess'| == |css| == |css'|
    && ess' == ess[list := ess'[list]] && css' == css[list := css'[list]]
  }

  /** Some entries from j on have been removed, all of them in the range. */
  ghost predicate FlushedTo(r: Range, d0: Dated, d: Dated, j: nat)
    requires r.modulus > 0
  {
    && IsDated(d0, r.modulus) && IsDated(d, r.modulus)
    && |d0.entries| == |d0.chapters| && |d.entries| == |d.chapters| && j <= |d.entries| <= |d0.entries|
    && d.entries[..j] == d0.entries[..j] && d.chapters[..j] == d0.chapters[..j]
    && FlushFrom(r, d, j) == FlushFrom(r, d0, j)
  }

  /** The flush has passed entry j: it is kept and counted, or the list has ended. */
  ghost predicate Stepped(r: Range, d0: Dated, d: Dated, j: nat, next: nat, next': nat)
    requires r.modulus > 0
  {
    && FlushedTo(r, d0, d, j)
    && (j < |d.entries| ==>
          && var relative := Relative(r, d.entries[j].value);
          && relative >= r.count && next' == (if relative < next then relative else next)
          && FlushFrom(r, d, j + 1) == FlushFrom(r, d0, j))
    && (j == |d.entries| ==> d == FlushFrom(r, d0, j) && next' == next)
  }

  lemma StepKept(r: Range, d0: Dated, d: Dated, j: nat, next: nat)
    requires r.modulus > 0 && FlushedTo(r, d0, d, j) && j < |d.entries| && Relative(r, d.entries[j].value) >= r.count
    ensures var relative := Relative(r, d.entries[j].value);
      Stepped(r, d0, d, j, next, if relative < next then relative else next)
  {
    hide Relative;
  }

  lemma StepFlushed(r: Range, d0: Dated, d: Dated, j: nat)
    requires r.modulus > 0 && FlushedTo(r, d0, d, j) && j < |d.entries| && Relative(r, d.entries[j].value) < r.count
    ensures |d.entries| == |d.chapters| && FlushedTo(r, d0, Drop(d, j), j) && |Drop(d, j).entries| < |d.entries|
  {
    hide Relative;
    DropIsDated(d, j, r.modulus);
  }

  lemma StepEnd(r: Range, d0: Dated, d: Dated, j: nat, next: nat)
    requires r.modulus > 0 && FlushedTo(r, d0, d, j) && j == |d.entries|
    ensures Stepped(r, d0, d, j, next, next)
  {
  }

  /** The smallest relative chapter of some entries, at most modulus - 1. */
  ghost function MinRelative(r: Range, es: seq<Entry>): (m: nat)
    requires r.modulus > 0
    ensures m < r.modulus
  {
    if es == [] then r.modulus - 1
    else
      var m, k := MinRelative(r, es[..|es| - 1]), Relative(r, es[|es| - 1].value);
      if k < m then k else m
  }

  /** A flush that began with d0 has reached entry j of d. */
  ghost predicate Passed(r: Range, d0: Dated, d: Dated, j: nat, next: nat)
    requires r.modulus > 0
  {
    && IsDated(d0, r.modulus) && IsDated(d, r.modulus) && j <= |d.entries| <= |d0.entries|
    && (j < |d.entries| ==>
          FlushFrom(r, d, j + 1) == FlushFrom(r, d0, 0) && next == MinRelative(r, d.entries[..j + 1]))
    && (j == |d.entries| ==> d == FlushFrom(r, d0, 0) && next == MinRelative(r, d.entries))
  }

  lemma FirstPassed(r: Range, d0: Dated, d: Dated, next: nat, next': nat)
    requires r.modulus > 0 && Stepped(r, d0, d, 0, next, next') && next == r.modulus - 1
    ensures Passed(r, d0, d, 0, next')
  {
    hide Relative;
    if 0 < |d.entries| {
      var one := d.entries[..1];
      assert one[..0] == [] && one[0] == d.entries[0];
      assert MinRelative(r, one) == if Relative(r, one[0].value) < MinRelative(r, one[..0])
        then Relative(r, one[0].value) else MinRelative(r, one[..0]);
    }
  }

  lemma NextPassed(r: Range, d0: Dated, d1: Dated, d2: Dated, j: nat, next: nat, next': nat)
    requires r.modulus > 0 && Passed(r, d0, d1, j, next) && j < |d1.entries|
    requires Stepped(r, d1, d2, j + 1, next, next')
    ensures Passed(r, d0, d2, j + 1, next')
    ensures j + 1 <= |d2.entries| <= |d1.entries| && d2.entries[..j + 1] == d1.entries[..j + 1]
  {
    hide Relative, IsDated, FlushFrom;
    if j + 1 < |d2.entries| {
      assert d2.entries[..j + 2][..j + 1] == d2.entries[..j + 1];
    } else {
      assert d2.entries[..j + 1] == d2.entries;
    }
  }

  lemma PassedIsDated(r: Range, d0: Dated, d: Dated, j: nat, next: nat)
    requires r.modulus > 0 && Passed(r, d0, d, j, next)
    ensures IsDated(d, r.modulus) && |d.entries| == |d.chapters|
  {
  }

  lemma AllPassed(r: Range, d0: Dated, d: Dated, j: nat, next: nat)
    requires r.modulus > 0 && Passed(r, d0, d, j, next) && j == |d.entries|
    ensures d == FlushFrom(r, d0, 0) && next == MinRelative(r, d.entries)
  {
  }

  lemma ShorterPrefix<T>(a: seq<T>, b: seq<T>, n: nat, k: nat)
    requires k <= n <= |a| && n <= |b| && b[..n] == a[..n]
    ensures b[..k] == a[..k]
  {
    assert b[..k] == b[..n][..k] && a[..k] == a[..n][..k];
  }

  /** The entries after j up to k are collisions with other names. */
  ghost predicate NotAmong(es: seq<Entry>, j: nat, name: Name, k: nat) {
    j <= k < |es| && forall i :: j < i <= k ==> es[i].name.Some? && es[i].name.value != name
  }

  /** The search of a group has been decided at entry k. */
  ghost predicate GroupDone(es: seq<Entry>, j: nat, name: Name, k: nat, p: nat) {
    && j < k <= |es| && (forall i :: j < i < k ==> es[i].name.Some? && es[i].name.value != name)
    && ((p == j && (k == |es| || es[k].name.None?)) || (p == k < |es| && es[k].name == Some(name)))
  }

  lemma PrefixKept(f: Format, a: seq<Entry>, b: seq<Entry>, k: nat, cur: Cursor, j: nat, name: Name)
    requires f.coding.incrKeys > 0 && j <= k < |a| && k + 1 <= |b| && b[..k + 1] == a[..k + 1]
    requires At(f, a, cur, j) && NotAmong(a, j, name, k)
    ensures At(f, b, cur, j) && NotAmong(b, j, name, k) && b[..j + 1] == a[..j + 1]
  {
    hide KeySum, ListCode;
    AtPrefix(f, a, b, cur, j, k + 1);
    ShorterPrefix(a, b, k + 1, j + 1);
    forall i | j < i <= k
      ensures b[i] == a[i]
    {
      assert b[..k + 1][i] == a[..k + 1][i];
    }
  }

  /** A cursor is good for every list with the same entries up to its own. */
  lemma AtPrefix(f: Format, a: seq<Entry>, b: seq<Entry>, cur: Cursor, j: nat, n: nat)
    requires f.coding.incrKeys > 0 && j < n <= |a| && n <= |b| && b[..n] == a[..n] && At(f, a, cur, j)
    ensures At(f, b, cur, j)
  {
    hide KeySum, ListCode;
    ShorterPrefix(a, b, n, j);
    ShorterPrefix(a, b, n, j + 1);
    assert a[j] == a[..n][j] == b[j];
  }

  lemma SeekIs(es: seq<Entry>, key: nat, j: nat)
    requires IsSeek(es, key, j)
    ensures Seek(es, key, 0) == j
  {
    SeekFrom(es, key, j);
  }

  lemma {:induction false} SeekNameIs(es: seq<Entry>, j: nat, name: Name, from: nat, k: nat, p: nat)
    requires GroupDone(es, j, name, k, p) && j < from <= k
    ensures SeekName(es, j, name, from) == p
    decreases k - from
  {
    if from < k {
      SeekNameIs(es, j, name, from + 1, k, p);
    }
  }

  /** What the three parts of the walk found, in the list that they leave. */
  lemma WalkFinds(es: seq<Entry>, key: nat, name: Name, j: nat, k: nat, p: nat)
    requires IsSeek(es, key, j)
    requires if j < |es| && KeyAt(es, j) == key then GroupDone(es, j, name, k, p) else p == j
    ensures Locate(es, key, name) == p
  {
    hide KeySum;
    SeekIs(es, key, j);
    if j < |es| && KeyAt(es, j) == key {
      SeekNameIs(es, j, name, j + 1, k, p);
    }
  }

  lemma SeekKept(a: seq<Entry>, b: seq<Entry>, key: nat, j: nat)
    requires IsSeek(a, key, j) && j < |a| && j < |b| && b[..j + 1] == a[..j + 1]
    ensures IsSeek(b, key, j) && KeyAt(b, j) == KeyAt(a, j)
  {
    ShorterPrefix(a, b, j + 1, j);
  }

  lemma GroupKept(a: seq<Entry>, b: seq<Entry>, j: nat, name: Name, k: nat, p: nat)
    requires GroupDone(a, j, name, k, p)
    requires if k < |a| then k < |b| && b[..k + 1] == a[..k + 1] else b == a
    ensures GroupDone(b, j, name, k, p)
  {
    if k < |a| {
      forall i | 0 <= i <= k
        ensures b[i] == a[i]
      {
        assert b[..k + 1][i] == a[..k + 1][i];
      }
    }
  }

  /** The smallest relative chapter of a list is that of its oldest entry. */
  lemma {:induction false} MinRelativeIs(r: Range, es: seq<Entry>, cs: seq<nat>, flush: nat, low: nat)
    requires IsModulus(r.modulus) && r.modulus > 0 && |es| == |cs| && flush < low &&
      r == ExpiredRange(flush, low, r.modulus)
    requires forall i :: 0 <= i < |cs| ==> es[i].value == cs[i] % r.modulus && flush <= cs[i] < flush + r.modulus
    ensures es != [] ==> exists i :: 0 <= i < |cs| && MinRelative(r, es) == cs[i] - flush
    ensures forall i :: 0 <= i < |cs| ==> MinRelative(r, es) <= cs[i] - flush
  {
    hide IsModulus, Relative, ExpiredRange;
    var n := |es| - 1;
    if n >= 0 {
      MinRelativeIs(r, es[..n], cs[..n], flush, low);
      ExpiredIsFlushed(flush, low, r.modulus, cs[n]);
      if MinRelative(r, es) == cs[n] - flush {
      } else {
        var i :| 0 <= i < |cs[..n]| && MinRelative(r, es[..n]) == cs[..n][i] - flush;
        assert cs[i] == cs[..n][i];
      }
      forall i | 0 <= i < |cs|
        ensures MinRelative(r, es) <= cs[i] - flush
      {
        if i < n {
          assert cs[i] == cs[..n][i];
        }
      }
    }
  }

  /** The next flush starts at the oldest entry that is left. */
  lemma OldestChapter(modulus: nat, flush: nat, low: nat, chapter: nat)
    requires IsModulus(modulus) && modulus > 0 && flush <= chapter && low <= chapter < low + modulus
    ensures ToVirtual(low, ((chapter - flush + flush % modulus) % UINT32_RANGE) % modulus, modulus) == chapter
  {
    hide IsModulus;
    var x := chapter - flush + flush % modulus;
    WordMod32(x, modulus);
    SameLowBits(flush, chapter, modulus);
    TrueChapter(low, chapter, modulus);
  }

  lemma SameLowBits(flush: nat, chapter: nat, modulus: nat)
    requires modulus > 0 && flush <= chapter
    ensures (chapter - flush + flush % modulus) % modulus == chapter % modulus
  {
    var x := chapter - flush + flush % modulus;
    DivMod(flush, modulus);
    ModAdd(x, flush / modulus, modulus);
  }

  /** After a flush of the expired chapters the window of the list starts in the
      indexed range, and holds all the entries that are left. */
  lemma NewWindow(f: Format, d: Dated, flush: nat, low: nat, high: nat, modulus: nat, start: nat)
    requires IsModulus(modulus) && modulus > 0 && GoodDates(d, flush, modulus, high) && WellFormed(f, d.entries)
    requires flush < low <= high < low + modulus
    requires var r := ExpiredRange(flush, low, modulus);
      start == ((MinRelative(r, FlushFrom(r, d, 0).entries) + r.start) % UINT32_RANGE) % modulus
    ensures var e, v := FlushFrom(ExpiredRange(flush, low, modulus), d, 0), ToVirtual(low, start, modulus);
      && Rows(e) == Live(Rows(d), low)
      && GoodDates(e, if v > high then high else v, modulus, high)
  {
    hide IsModulus, ToVirtual, WellFormed, FlushFrom, Flushed, Live, Kept, MinRelative;
    var r := ExpiredRange(flush, low, modulus);
    var e, v := FlushFrom(r, d, 0), ToVirtual(low, start, modulus);
    FlushKeepsForm(f, r, d, 0);
    FlushRows(f, r, d, 0);
    assert Rows(d)[..0] == [] && Rows(d)[0..] == Rows(d);
    KeptIsLive(flush, low, modulus, Rows(d));
    forall i | 0 <= i < |e.chapters|
      ensures low <= e.chapters[i] <= high && flush <= e.chapters[i] < flush + modulus
    {
      var row := Rows(e)[i];
      LiveMeaning(Rows(d), low, row);
      var k :| 0 <= k < |Rows(d)| && Rows(d)[k] == row;
    }
    MinRelativeIs(r, e.entries, e.chapters, flush, low);
    if e.entries != [] {
      var i :| 0 <= i < |e.chapters| && MinRelative(r, e.entries) == e.chapters[i] - flush;
      OldestChapter(modulus, flush, low, e.chapters[i]);
    }
  }

  lemma {:induction false} AllLive(rows: seq<Row>, low: nat)
    requires forall i :: 0 <= i < |rows| ==> low <= rows[i].chapter
    ensures Live(rows, low) == rows
  {
    if rows != [] {
      AllLive(rows[1..], low);
      assert rows == [rows[0]] + rows[1..];
    }
  }

  /** The low bits of a chapter in the indexed range give it back. */
  lemma TrueChapter(low: nat, chapter: nat, modulus: nat)
    requires IsModulus(modulus) && modulus > 0 && low <= chapter < low + modulus
    ensures ToVirtual(low, chapter % modulus, modulus) == chapter
  {
    hide IsModulus;
    WordMod64(chapter % modulus - low, modulus);
    LowBits(chapter, low, modulus);
  }

  /** Where a search ends, for the put that follows it. */
  lemma LocatePlace(f: Format, es: seq<Entry>, key: nat, name: Name)
    requires WellFormed(f, es)
    ensures var j := Locate(es, key, name);
      && j <= |es|
      && !(j < |es| && KeyAt(es, j) == key) ==>
           KeySum(es[..j]) <= key && (j > 0 ==> KeySum(es[..j]) < key) &&
             (j < |es| ==> key < KeyAt(es, j) && es[j].name.None?)
  {
    SeekMeaning(es, key, 0);
    var s := Seek(es, key, 0);
    if s < |es| {
      SeekPlain(f, es, key, s);
      if KeyAt(es, s) == key {
        GroupSearch(f, es, s, name);
        assert View(es)[Locate(es, key, name)].key == key;
      }
    }
  }

  /** A list after a put, with the chapter of the new entry. */
  ghost function PutDated(d: Dated, j: nat, key: nat, chapter: nat, modulus: nat, name: Option<Name>): Dated
    requires modulus > 0 && |d.entries| == |d.chapters| && PutAllowed(d.entries, j, key, name)
  {
    var at := if name.Some? then j + 1 else j;
    Dated(PutEntry(d.entries, j, key, chapter % modulus, name), d.chapters[..at] + [chapter] + d.chapters[at..])
  }

  lemma PutIsDated(d: Dated, j: nat, key: nat, chapter: nat, modulus: nat, name: Option<Name>, flush: nat, high: nat)
    requires modulus > 0 && GoodDates(d, flush, modulus, high) && PutAllowed(d.entries, j, key, name)
    requires chapter <= high
    ensures GoodDates(PutDated(d, j, key, chapter, modulus, name), flush, modulus, high) <==>
      flush <= chapter < flush + modulus
  {
    hide KeySum;
    PutStaysDated(d, j, key, chapter, modulus, name);
    var e := PutDated(d, j, key, chapter, modulus, name);
    var at := if name.Some? then j + 1 else j;
    assert e.chapters[at] == chapter;
    forall i | 0 <= i < |e.chapters|
      ensures i != at ==> flush <= e.chapters[i] < flush + modulus && e.chapters[i] <= high
    {
      var k := if i > at then i - 1 else i;
      if i != at {
        assert e.chapters[i] == d.chapters[k];
      }
    }
  }

  lemma PutStaysDated(d: Dated, j: nat, key: nat, chapter: nat, modulus: nat, name: Option<Name>)
    requires modulus > 0 && IsDated(d, modulus) && PutAllowed(d.entries, j, key, name)
    ensures IsDated(PutDated(d, j, key, chapter, modulus, name), modulus)
  {
    hide KeySum;
    var e := PutDated(d, j, key, chapter, modulus, name);
    var at := if name.Some? then j + 1 else j;
    forall i | 0 <= i < |e.chapters|
      ensures e.entries[i].value == e.chapters[i] % modulus
    {
      var k := if i > at then i - 1 else i;
      if i != at {
        assert e.chapters[i] == d.chapters[k] && e.entries[i].value == d.entries[k].value;
      }
    }
  }

  ghost function SetDated(d: Dated, j: nat, chapter: nat, modulus: nat): Dated
    requires modulus > 0 && j < |d.entries| == |d.chapters|
  {
    Dated(d.entries[j := d.entries[j].(value := chapter % modulus)], d.chapters[j := chapter])
  }

  lemma SetStaysDated(d: Dated, j: nat, chapter: nat, modulus: nat)
    requires modulus > 0 && IsDated(d, modulus) && j < |d.entries|
    ensures IsDated(SetDated(d, j, chapter, modulus), modulus)
  {
  }

  lemma SetIsDated(d: Dated, j: nat, chapter: nat, modulus: nat, flush: nat, high: nat)
    requires modulus > 0 && GoodDates(d, flush, modulus, high) && j < |d.entries|
    requires chapter <= high
    ensures GoodDates(SetDated(d, j, chapter, modulus), flush, modulus, high) <==> flush <= chapter < flush + modulus
  {
    assert SetDated(d, j, chapter, modulus).chapters[j] == chapter;
  }

  lemma DropKeepsDates(d: Dated, j: nat, modulus: nat, flush: nat, high: nat)
    requires modulus > 0 && GoodDates(d, flush, modulus, high) && j < |d.entries|
    ensures GoodDates(Drop(d, j), flush, modulus, high)
  {
    DropIsDated(d, j, modulus);
  }

  /** The chapters after the open chapter has moved back to v: those from v on
      become older by the modulus, which keeps their low bits. */
  ghost function Renumber(cs: seq<nat>, v: nat, modulus: nat): (r: seq<nat>)
    requires v >= modulus
    ensures |r| == |cs|
  {
    seq(|cs|, i requires 0 <= i < |cs| => if cs[i] >= v then cs[i] - modulus else cs[i])
  }

  /** What going back to v makes of a flush chapter. */
  function BackFlush(flush: nat, v: nat, modulus: nat): nat {
    if v >= modulus && v - modulus < flush then v - modulus else flush
  }

  lemma RenumberKeepsDated(d: Dated, v: nat, modulus: nat)
    requires modulus > 0 && IsDated(d, modulus) && v >= modulus
    ensures IsDated(Dated(d.entries, Renumber(d.chapters, v, modulus)), modulus)
  {
    var cs := Renumber(d.chapters, v, modulus);
    forall i | 0 <= i < |cs|
      ensures d.entries[i].value == cs[i] % modulus
    {
      if d.chapters[i] >= v {
        ModAdd(cs[i], 1, modulus);
      }
    }
  }

  lemma RenumberedDates(d: Dated, flush: nat, modulus: nat, low: nat, high: nat, v: nat)
    requires modulus > 0 && GoodDates(d, flush, modulus, high) && low < v <= high < low + modulus && v >= modulus
    ensures GoodDates(Dated(d.entries, Renumber(d.chapters, v, modulus)), BackFlush(flush, v, modulus), modulus, v)
  {
    RenumberKeepsDated(d, v, modulus);
  }

  /** What the renumbering leaves live is what was live and older than v. */
  lemma {:induction false} RenumberedLive(d: Dated, modulus: nat, low: nat, high: nat, v: nat)
    requires |d.entries| == |d.chapters| && low < v <= high < low + modulus && v >= modulus
    requires forall i :: 0 <= i < |d.chapters| ==> d.chapters[i] <= high
    ensures Live(Rows(Dated(d.entries, Renumber(d.chapters, v, modulus))), low) == Older(Live(Rows(d), low), v)
  {
    var rows, rows' := Rows(d), Rows(Dated(d.entries, Renumber(d.chapters, v, modulus)));
    RenumberedRows(rows, rows', low, v);
  }

  /** The rows of chapters before v. */
  ghost function Older(rows: seq<Row>, v: nat): seq<Row>
  {
    if rows == [] then []
    else (if rows[0].chapter < v then [rows[0]] else []) + Older(rows[1..], v)
  }

  lemma {:induction false} RenumberedRows(rows: seq<Row>, rows': seq<Row>, low: nat, v: nat)
    requires |rows| == |rows'| && low < v
    requires forall i :: 0 <= i < |rows| ==>
      if rows[i].chapter < v then rows'[i] == rows[i] else rows'[i].chapter < low
    ensures Live(rows', low) == Older(Live(rows, low), v)
  {
    if rows != [] {
      RenumberedRows(rows[1..], rows'[1..], low, v);
      var live, rest := Live(rows, low), Live(rows[1..], low);
      if rows[0].chapter >= low {
        assert live == [rows[0]] + rest && live[1..] == rest;
      } else {
        assert live == [] + rest == rest;
      }
      assert Live(rows', low) == (if rows'[0].chapter < low then [] else [rows'[0]]) + Live(rows'[1..], low);
    }
  }

  function ZeroName(): Name {
    seq(COLLISION_BYTES, _ => [false, false, false, false, false, false, false, false])
  }

  /** The list d has become e, which holds what was live and older than v. */
  ghost predicate NewestGone(d: Dated, e: Dated, flush: nat, modulus: nat, low: nat, v: nat)
    requires modulus > 0
  {
    && |d.entries| == |d.chapters| && |e.entries| == |e.chapters|
    && GoodDates(e, flush, modulus, v) && Rows(e) == Older(Live(Rows(d), low), v)
  }

  lemma DatesAll(ess: seq<seq<Entry>>, css: seq<seq<nat>>, flushes: seq<nat>, modulus: nat, high: nat)
    requires modulus > 0 && |flushes| == |css| == |ess|
    requires forall k :: 0 <= k < |css| ==> GoodDates(Dated(ess[k], css[k]), flushes[k], modulus, high)
    ensures AllDates(ess, css, flushes, modulus, high)
  {
  }

  /** The stored chapter numbers that the slow path removes when the open chapter goes
      back to v. */
  function NewestRange(low: nat, v: nat, modulus: nat): Range
    requires modulus > 0 && low <= v <= low + modulus
  {
    Range(v % modulus, modulus - (v - low), modulus)
  }

  /** In the slow path a stored chapter is outside the range exactly when its
      chapter is indexed and older than v. */
  lemma NewestIsFlushed(modulus: nat, low: nat, high: nat, v: nat, chapter: nat)
    requires IsModulus(modulus) && modulus > 0 && low < v <= high < low + modulus && v < modulus && chapter <= high
    ensures Flushed(NewestRange(low, v, modulus), chapter % modulus) <==> !(low <= chapter < v)
  {
    var r := NewestRange(low, v, modulus);
    SmallMod(v, modulus);
    RelativeIs(r, chapter % modulus);
    OffsetIs(modulus, v, chapter);
    var k := Relative(r, chapter % modulus);
    assert k == (if chapter < v then chapter - v + modulus else chapter - v);
  }

  lemma SmallMod(x: nat, m: nat)
    requires x < m
    ensures x % m == x
  {
  }

  lemma RelativeIs(r: Range, value: nat)
    requires r.modulus > 0 && IsModulus(r.modulus)
    ensures Relative(r, value) == (value - r.start) % r.modulus
  {
    WordMod32(value - r.start, r.modulus);
  }

  lemma OffsetIs(modulus: nat, v: nat, chapter: nat)
    requires v < modulus && chapter < v + modulus
    ensures (chapter % modulus - v) % modulus == if chapter < v then chapter - v + modulus else chapter - v
  {
    if chapter < v {
      SmallMod(chapter, modulus);
      ModUnique(chapter - v, -1, chapter - v + modulus, modulus);
    } else {
      LowBits(chapter, v, modulus);
    }
  }

  lemma {:induction false} KeptIsOlder(modulus: nat, low: nat, high: nat, v: nat, rows: seq<Row>)
    requires IsModulus(modulus) && modulus > 0 && low < v <= high < low + modulus && v < modulus
    requires forall i :: 0 <= i < |rows| ==> rows[i].value == rows[i].chapter % modulus && rows[i].chapter <= high
    ensures Kept(NewestRange(low, v, modulus), rows) == Older(Live(rows, low), v)
  {
    hide IsModulus, Flushed;
    if rows != [] {
      NewestIsFlushed(modulus, low, high, v, rows[0].chapter);
      KeptIsOlder(modulus, low, high, v, rows[1..]);
      var live, rest := Live(rows, low), Live(rows[1..], low);
      if rows[0].chapter >= low {
        assert live == [rows[0]] + rest && live[1..] == rest;
      } else {
        assert live == [] + rest == rest;
      }
    }
  }

  lemma {:induction false} OlderMeaning(rows: seq<Row>, v: nat, row: Row)
    ensures row in Older(rows, v) <==> row in rows && row.chapter < v
  {
    if rows != [] {
      OlderMeaning(rows[1..], v, row);
      assert rows == [rows[0]] + rows[1..];
    }
  }

  lemma FlushedNewest(f: Format, d: Dated, r: Range, flush: nat, modulus: nat, low: nat, high: nat, v: nat)
    requires IsModulus(modulus) && modulus > 0 && GoodDates(d, flush, modulus, high) && WellFormed(f, d.entries)
    requires low < v <= high < low + modulus && v < modulus && r == NewestRange(low, v, modulus)
    ensures NewestGone(d, FlushFrom(r, d, 0), flush, modulus, low, v) &&
      GoodDates(FlushFrom(r, d, 0), flush, modulus, high)
  {
    hide IsModulus, WellFormed, FlushFrom, Flushed, Live, Kept, Older;
    var e := FlushFrom(r, d, 0);
    FlushKeepsForm(f, r, d, 0);
    FlushRows(f, r, d, 0);
    assert Rows(d)[..0] == [] && Rows(d)[0..] == Rows(d);
    KeptIsOlder(modulus, low, high, v, Rows(d));
    forall i | 0 <= i < |e.chapters|
      ensures flush <= e.chapters[i] < flush + modulus && e.chapters[i] <= v <= high
    {
      var row := Rows(e)[i];
      OlderMeaning(Live(Rows(d), low), v, row);
      LiveMeaning(Rows(d), low, row);
      var k :| 0 <= k < |Rows(d)| && Rows(d)[k] == row;
    }
  }

  /** The conversion is right exactly for the chapters that the stored bits can tell. */
  lemma TrueChapterExactly(low: nat, chapter: nat, modulus: nat)
    requires IsModulus(modulus) && modulus > 0
    ensures ToVirtual(low, chapter % modulus, modulus) == chapter <==> low <= chapter < low + modulus
  {
    hide IsModulus;
    if low <= chapter < low + modulus {
      TrueChapter(low, chapter, modulus);
    }
  }

  /** A list after a lookup: without the entries in the expired range, if there may be any. */
  ghost function Cleaned(d: Dated, flush: nat, low: nat, modulus: nat): Dated
    requires modulus > 0 && |d.entries| == |d.chapters|
  {
    if flush < low then FlushFrom(ExpiredRange(flush, low, modulus), d, 0) else d
  }

  /** The flush chapter of a list that a lookup leaves empty. */
  function EmptyFlush(flush: nat, low: nat, high: nat, modulus: nat): nat
    requires modulus > 0
  {
    var v := ToVirtual(low, ((modulus - 1 + flush % modulus) % UINT32_RANGE) % modulus, modulus);
    if v > high then high else v
  }

  lemma NoMinRelative(r: Range)
    requires r.modulus > 0
    ensures MinRelative(r, []) == r.modulus - 1
  {
  }

  /** Why no list may have its flush chapter above the open chapter: an entry put
      before the flush chapter is not flushed when its chapter expires, and is then
      reported in a chapter that is too new by the modulus. */
  lemma StaleIsMisdated(d: Dated, i: nat, low: nat, flush: nat, modulus: nat)
    requires IsModulus(modulus) && modulus > 0 && IsDated(d, modulus) && i < |d.chapters|
    requires d.chapters[i] < low <= flush && low <= d.chapters[i] + modulus
    ensures Cleaned(d, flush, low, modulus) == d
    ensures ToVirtual(low, d.entries[i].value, modulus) == d.chapters[i] + modulus
  {
    hide IsModulus;
    var chapter := d.chapters[i];
    WordMod64(chapter % modulus - low, modulus);
    ModAdd(chapter + modulus, -1, modulus);
    LowBits(chapter + modulus, low, modulus);
  }

  /** The lowest chapter indexed after the open chapter has become v. */
  function MovedLow(low: nat, high: nat, v: nat, numChapters: nat): nat {
    var smallest := if v >= numChapters then v - numChapters + 1 else 0;
    if v <= low then v
    else if v <= high then low
    else if smallest < low then low
    else if smallest <= high then smallest
    else v
  }

  lemma MovedToStart(low: nat, high: nat, v: nat, numChapters: nat)
    ensures v <= low ==> MovedLow(low, high, v, numChapters) == v
  {
  }

  /** The lowest chapter after early expiry, when the zone uses too many bits. */
  function EarlyLow(low: nat, high: nat, used: nat, max: nat, chapterBits: nat): nat
    requires low <= high && chapterBits > 0
  {
    if low < high && used > max then
      var count := ExpireCount(used, max, chapterBits);
      if low + count < high then low + count else high
    else low
  }

  /** How many chapters have to go to free the space used above the maximum. */
  function ExpireCount(used: nat, max: nat, chapterBits: nat): (count: nat)
    requires used > max && chapterBits > 0
    ensures count >= 1
  {
    1 + (used - max) / chapterBits
  }

  /** The chapters kept by a move are the newest numChapters of those before v. */
  lemma MovedLowMeaning(low: nat, high: nat, v: nat, numChapters: nat, chapter: nat)
    requires low <= high < low + numChapters
    ensures MovedLow(low, high, v, numChapters) <= v < MovedLow(low, high, v, numChapters) + numChapters
    ensures low <= chapter <= high && chapter < v ==>
      (MovedLow(low, high, v, numChapters) <= chapter <==> v < chapter + numChapters)
  {
  }

  /** What is live in a list after a move is what was, without the chapters from v
      on and those that are no longer indexed. */
  ghost predicate ListMoved(d: Dated, e: Dated, low: nat, low': nat, v: nat) {
    && |d.entries| == |d.chapters| && |e.entries| == |e.chapters|
    && Live(Rows(e), low') == Live(Older(Live(Rows(d), low), v), low')
  }

  lemma {:induction false} LiveLive(rows: seq<Row>, low: nat, low': nat)
    requires low <= low'
    ensures Live(Live(rows, low), low') == Live(rows, low')
  {
    if rows != [] {
      LiveLive(rows[1..], low, low');
      var live, rest := Live(rows, low), Live(rows[1..], low);
      if rows[0].chapter >= low {
        assert live == [rows[0]] + rest && live[1..] == rest;
      } else {
        assert live == [] + rest == rest;
      }
    }
  }

  lemma {:induction false} AllOlder(rows: seq<Row>, v: nat)
    requires forall i :: 0 <= i < |rows| ==> rows[i].chapter < v
    ensures Older(rows, v) == rows
  {
    if rows != [] {
      AllOlder(rows[1..], v);
    }
  }

  lemma {:induction false} NoneOlder(rows: seq<Row>, v: nat)
    requires forall i :: 0 <= i < |rows| ==> rows[i].chapter >= v
    ensures Older(rows, v) == []
  {
    if rows != [] {
      NoneOlder(rows[1..], v);
    }
  }

  lemma LiveBounds(rows: seq<Row>, low: nat)
    ensures forall i :: 0 <= i < |Live(rows, low)| ==> Live(rows, low)[i].chapter >= low && Live(rows, low)[i] in rows
  {
    forall i | 0 <= i < |Live(rows, low)|
      ensures Live(rows, low)[i].chapter >= low && Live(rows, low)[i] in rows
    {
      LiveMeaning(rows, low, Live(rows, low)[i]);
    }
  }

  lemma OlderBounds(rows: seq<Row>, v: nat)
    ensures forall i :: 0 <= i < |Older(rows, v)| ==> Older(rows, v)[i] in rows
  {
    forall i | 0 <= i < |Older(rows, v)|
      ensures Older(rows, v)[i] in rows
    {
      OlderMeaning(rows, v, Older(rows, v)[i]);
    }
  }

  /** The whole list is forgotten. */
  lemma MovedBefore(d: Dated, low: nat, v: nat)
    requires |d.entries| == |d.chapters| && v <= low
    ensures ListMoved(d, Dated([], []), low, v, v)
  {
    hide Live, Older, Rows;
    LiveBounds(Rows(d), low);
    NoneOlder(Live(Rows(d), low), v);
    AllLive(Rows(Dated([], [])), v);
    assert Rows(Dated([], [])) == [];
    AllLive([], v);
  }

  /** The newest chapters are forgotten. */
  lemma MovedBack(d: Dated, e: Dated, low: nat, v: nat)
    requires |d.entries| == |d.chapters| && |e.entries| == |e.chapters|
    requires Live(Rows(e), low) == Older(Live(Rows(d), low), v)
    ensures ListMoved(d, e, low, low, v)
  {
    hide Live, Older, Rows;
    var live := Live(Rows(d), low);
    LiveBounds(Rows(d), low);
    OlderBounds(live, v);
    AllLive(Older(live, v), low);
  }

  /** The open chapter moves forward, and the list does not change. */
  lemma MovedForward(d: Dated, low: nat, low': nat, flush: nat, modulus: nat, high: nat, v: nat)
    requires modulus > 0 && GoodDates(d, flush, modulus, high) && high < v && low <= low'
    ensures ListMoved(d, d, low, low', v)
  {
    hide Live, Older;
    LiveBounds(Rows(d), low);
    forall i | 0 <= i < |Live(Rows(d), low)|
      ensures Live(Rows(d), low)[i].chapter < v
    {
      var k :| 0 <= k < |Rows(d)| && Rows(d)[k] == Live(Rows(d), low)[i];
    }
    AllOlder(Live(Rows(d), low), v);
    LiveLive(Rows(d), low, low');
  }

  /** Chapters expire after a move. */
  lemma MovedExpires(d: Dated, e: Dated, low: nat, low0: nat, low': nat, v: nat)
    requires ListMoved(d, e, low, low0, v) && low0 <= low'
    ensures ListMoved(d, e, low, low', v)
  {
    hide Live, Older, Rows;
    LiveLive(Rows(e), low0, low');
    LiveLive(Older(Live(Rows(d), low), v), low0, low');
  }

  ghost predicate AllMoved(ess: seq<seq<Entry>>, css: seq<seq<nat>>, ess': seq<seq<Entry>>, css': seq<seq<nat>>,
      low: nat, low': nat, v: nat) {
    && |ess| == |css| == |ess'| == |css'|
    && forall k :: 0 <= k < |ess| ==> ListMoved(Dated(ess[k], css[k]), Dated(ess'[k], css'[k]), low, low', v)
  }

  lemma NotAbove(d: Dated, flush: nat, modulus: nat, high: nat)
    requires modulus > 0 && GoodDates(d, flush, modulus, high)
    ensures forall i :: 0 <= i < |d.chapters| ==> d.chapters[i] <= high
  {
  }

  lemma FlushedBack(d: Dated, e: Dated, low: nat, v: nat)
    requires |d.entries| == |d.chapters| && |e.entries| == |e.chapters|
    requires Rows(e) == Older(Live(Rows(d), low), v)
    ensures ListMoved(d, e, low, low, v)
  {
    hide Live, Older, Rows;
    LiveBounds(Rows(d), low);
    OlderBounds(Live(Rows(d), low), v);
    AllLive(Rows(e), low);
    MovedBack(d, e, low, v);
  }

  lemma EmptyDates(ess: seq<seq<Entry>>, css: seq<seq<nat>>, flushes: seq<nat>, modulus: nat, high: nat)
    requires modulus > 0 && |flushes| == |css| == |ess|
    requires ess == seq(|ess|, _ => []) && css == seq(|css|, _ => [])
    ensures AllDates(ess, css, flushes, modulus, high)
  {
  }

  lemma EmptyDated(ess: seq<seq<Entry>>, css: seq<seq<nat>>, modulus: nat)
    requires modulus > 0 && |css| == |ess|
    requires ess == seq(|ess|, _ => []) && css == seq(|css|, _ => [])
    ensures AllDated(ess, css, modulus)
  {
  }

  lemma ClearedAll(ess: seq<seq<Entry>>, css: seq<seq<nat>>, flushes: seq<nat>, modulus: nat, high: nat, low: nat,
      v: nat)
    requires modulus > 0 && AllDates(ess, css, flushes, modulus, high) && v <= low
    ensures AllMoved(ess, css, seq(|ess|, _ => []), seq(|css|, _ => []), low, v, v)
  {
    hide ListMoved, GoodDates;
    forall k | 0 <= k < |ess|
      ensures ListMoved(Dated(ess[k], css[k]), Dated([], []), low, v, v)
    {
      AllDatesAt(ess, css, flushes, modulus, high, k);
      MovedBefore(Dated(ess[k], css[k]), low, v);
    }
  }

  lemma ForwardAll(ess: seq<seq<Entry>>, css: seq<seq<nat>>, flushes: seq<nat>, modulus: nat, high: nat, low: nat,
      low': nat, v: nat)
    requires modulus > 0 && AllDates(ess, css, flushes, modulus, high) && high < v && low <= low'
    ensures AllMoved(ess, css, ess, css, low, low', v)
  {
    hide ListMoved, GoodDates;
    forall k | 0 <= k < |ess|
      ensures ListMoved(Dated(ess[k], css[k]), Dated(ess[k], css[k]), low, low', v)
    {
      MovedForward(Dated(ess[k], css[k]), low, low', flushes[k], modulus, high, v);
    }
  }

  lemma ExpiredAll(ess: seq<seq<Entry>>, css: seq<seq<nat>>, ess': seq<seq<Entry>>, css': seq<seq<nat>>, low: nat,
      low0: nat, low': nat, v: nat)
    requires AllMoved(ess, css, ess', css', low, low0, v) && low0 <= low'
    ensures AllMoved(ess, css, ess', css', low, low', v)
  {
    hide ListMoved;
    forall k | 0 <= k < |ess|
      ensures ListMoved(Dated(ess[k], css[k]), Dated(ess'[k], css'[k]), low, low', v)
    {
      MovedExpires(Dated(ess[k], css[k]), Dated(ess'[k], css'[k]), low, low0, low', v);
    }
  }

  lemma AllDatesHigher(ess: seq<seq<Entry>>, css: seq<seq<nat>>, flushes: seq<nat>, modulus: nat, high: nat, v: nat)
    requires modulus > 0 && AllDates(ess, css, flushes, modulus, high) && high <= v
    ensures AllDates(ess, css, flushes, modulus, v)
  {
    forall k | 0 <= k < |css|
      ensures GoodDates(Dated(ess[k], css[k]), flushes[k], modulus, v)
    {
      assert GoodDates(Dated(ess[k], css[k]), flushes[k], modulus, high);
    }
  }

  lemma SeekBounds(es: seq<Entry>, key: nat, j: nat)
    requires IsSeek(es, key, j)
    ensures j <= |es|
  {
  }

  lemma GroupBounds(es: seq<Entry>, j: nat, name: Name, k: nat, p: nat)
    requires GroupDone(es, j, name, k, p)
    ensures j < k <= |es| && p < |es| && (p == j || p == k)
  {
  }

  lemma FoundKept(f: Format, b: seq<Entry>, c: seq<Entry>, cur: Cursor, j: nat, name: Name, k: nat, p: nat, key: nat)
    requires f.coding.incrKeys > 0 && GroupDone(b, j, name, k, p) && At(f, b, cur, p) && IsSeek(b, key, j)
    requires if k < |b| then k < |c| && c[..k + 1] == b[..k + 1] else c == b
    ensures At(f, c, cur, p) && IsSeek(c, key, j) && KeyAt(c, j) == KeyAt(b, j)
  {
    hide KeySum, ListCode;
    if k < |b| {
      AtPrefix(f, b, c, cur, p, k + 1);
      ShorterPrefix(b, c, k + 1, j + 1);
      SeekKept(b, c, key, j);
    }
  }

  lemma FlushedNothing(r: Range, d: Dated, j: nat)
    requires r.modulus > 0 && IsDated(d, r.modulus) && j <= |d.entries|
    ensures FlushedTo(r, d, d, j)
  {
  }

  lemma ReadyBounds(f: Format, es: seq<Entry>, cur: Cursor, j: nat)
    requires f.coding.incrKeys > 0 && Ready(f, es, cur, j)
    ensures j <= |es| && !cur.atEnd
  {
  }

  /** No list waits for a chapter that is not yet open. */
  ghost predicate NoneAhead(flushes: seq<nat>, high: nat) {
    forall k :: 0 <= k < |flushes| ==> flushes[k] <= high
  }

  ghost predicate AllDates(ess: seq<seq<Entry>>, css: seq<seq<nat>>, flushes: seq<nat>, modulus: nat, high: nat)
    requires modulus > 0
  {
    && |flushes| == |css| == |ess|
    && forall k :: 0 <= k < |css| ==> GoodDates(Dated(ess[k], css[k]), flushes[k], modulus, high)
  }

  lemma NoneAheadStill(flushes: seq<nat>, high: nat, k: nat, flush: nat)
    requires NoneAhead(flushes, high) && k < |flushes| && flush <= high
    ensures NoneAhead(flushes[k := flush], high)
  {
  }

  ghost predicate AllDated(ess: seq<seq<Entry>>, css: seq<seq<nat>>, modulus: nat)
    requires modulus > 0
  {
    |css| == |ess| && forall k :: 0 <= k < |css| ==> IsDated(Dated(ess[k], css[k]), modulus)
  }

  /** A change to one list. */
  lemma AllDatedEdit(ess: seq<seq<Entry>>, css: seq<seq<nat>>, ess': seq<seq<Entry>>, css': seq<seq<nat>>, modulus: nat,
      list: nat)
    requires modulus > 0 && AllDated(ess, css, modulus) && OnlyList(list, ess, ess', css, css')
    requires IsDated(Dated(ess'[list], css'[list]), modulus)
    ensures AllDated(ess', css', modulus)
  {
    hide IsDated;
  }

  lemma AllDatedAt(ess: seq<seq<Entry>>, css: seq<seq<nat>>, modulus: nat, k: nat)
    requires modulus > 0 && AllDated(ess, css, modulus) && k < |css|
    ensures IsDated(Dated(ess[k], css[k]), modulus) && |ess[k]| == |css[k]|
  {
  }

  lemma AllDatesAt(ess: seq<seq<Entry>>, css: seq<seq<nat>>, flushes: seq<nat>, modulus: nat, high: nat, k: nat)
    requires modulus > 0 && AllDates(ess, css, flushes, modulus, high) && k < |css|
    ensures |flushes| == |css| == |ess| && GoodDates(Dated(ess[k], css[k]), flushes[k], modulus, high)
    ensures IsDated(Dated(ess[k], css[k]), modulus) && |ess[k]| == |css[k]|
  {
  }

  /** A change to one list. */
  lemma AllDatesEdit(ess: seq<seq<Entry>>, css: seq<seq<nat>>, flushes: seq<nat>, ess': seq<seq<Entry>>,
      css': seq<seq<nat>>, flushes': seq<nat>, modulus: nat, high: nat, list: nat)
    requires modulus > 0 && AllDates(ess, css, flushes, modulus, high)
    requires OnlyList(list, ess, ess', css, css') && |flushes'| == |flushes| &&
      flushes' == flushes[list := flushes'[list]]
    ensures AllDates(ess', css', flushes', modulus, high) <==>
      GoodDates(Dated(ess'[list], css'[list]), flushes'[list], modulus, high)
  {
    hide GoodDates;
  }

  /** What the slow path removes is what would be reported in a chapter from v on, whatever
      chapter it stands for. */
  lemma NewestIsReported(low: nat, v: nat, modulus: nat, chapter: nat)
    requires IsModulus(modulus) && modulus > 0 && low < v < low + modulus
    ensures Flushed(NewestRange(low, v, modulus), chapter % modulus) <==>
      ToVirtual(low, chapter % modulus, modulus) >= v
  {
    hide IsModulus;
    var value := chapter % modulus;
    RelativeIs(NewestRange(low, v, modulus), value);
    WordMod64(value - low, modulus);
    Distances(low, v, modulus, value);
  }

  /** The distance of a value from v, in terms of its distance from low. */
  lemma Distances(low: nat, v: nat, modulus: nat, value: nat)
    requires modulus > 0 && low < v < low + modulus
    ensures var a, b := (value - low) % modulus, (value - v % modulus) % modulus;
      if a < v - low then b == a - (v - low) + modulus else b == a - (v - low)
  {
    var a := (value - low) % modulus;
    DivMod(v, modulus);
    var q := (value - low) / modulus;
    assert value - low == q * modulus + a;
    if a < v - low {
      assert value - v % modulus == (q + v / modulus - 1) * modulus + (a - (v - low) + modulus);
      ModUnique(value - v % modulus, q + v / modulus - 1, a - (v - low) + modulus, modulus);
    } else {
      assert value - v % modulus == (q + v / modulus) * modulus + (a - (v - low));
      ModUnique(value - v % modulus, q + v / modulus, a - (v - low), modulus);
    }
  }

  /** What going back to v makes of a list: newer chapters are renumbered if the chapter
      number is large enough, and removed otherwise. */
  ghost function BackList(d: Dated, low: nat, v: nat, modulus: nat): (e: Dated)
    requires modulus > 0 && low <= v <= low + modulus && |d.entries| == |d.chapters|
    ensures |e.entries| == |e.chapters|
  {
    if v >= modulus then Dated(d.entries, Renumber(d.chapters, v, modulus))
    else FlushFrom(NewestRange(low, v, modulus), d, 0)
  }

  lemma BackKeepsForm(f: Format, d: Dated, low: nat, v: nat, modulus: nat)
    requires modulus > 0 && low <= v <= low + modulus && IsDated(d, modulus) && WellFormed(f, d.entries)
    requires Distinct(View(d.entries))
    ensures IsDated(BackList(d, low, v, modulus), modulus) && Distinct(View(BackList(d, low, v, modulus).entries))
  {
    hide WellFormed, Distinct, View, FlushFrom;
    if v >= modulus {
      RenumberKeepsDated(d, v, modulus);
    } else {
      FlushKeepsForm(f, NewestRange(low, v, modulus), d, 0);
      FlushKeepsNames(f, NewestRange(low, v, modulus), d, 0);
    }
  }

  /** If the list has a good window, what is live in it afterwards is what was live and
      older than v, and so are the answers. */
  lemma BackMoves(f: Format, d: Dated, flush: nat, modulus: nat, low: nat, high: nat, v: nat)
    requires IsModulus(modulus) && modulus > 0 && GoodDates(d, flush, modulus, high) && WellFormed(f, d.entries)
    requires low < v <= high < low + modulus && Distinct(View(d.entries))
    ensures var e := BackList(d, low, v, modulus);
      && GoodDates(e, BackFlush(flush, v, modulus), modulus, v)
      && ListMoved(d, e, low, low, v) && AnswersMoved(d, e, low, v)
  {
    hide IsModulus, WellFormed, Distinct, View, FlushFrom, Live, Older, Rows, AnswersMoved, Renumber;
    if v >= modulus {
      RenumberedDates(d, flush, modulus, low, high, v);
      RenumberedLive(d, modulus, low, high, v);
      MovedBack(d, BackList(d, low, v, modulus), low, v);
      RenumberedAnswers(d, modulus, low, high, v);
    } else {
      FlushedNewest(f, d, NewestRange(low, v, modulus), flush, modulus, low, high, v);
      FlushedBack(d, BackList(d, low, v, modulus), low, v);
      FlushedAnswers(f, d, modulus, low, high, v);
    }
  }

  lemma RenumberedAnswers(d: Dated, modulus: nat, low: nat, high: nat, v: nat)
    requires |d.entries| == |d.chapters| && low < v <= high < low + modulus && v >= modulus
    requires Distinct(View(d.entries)) && forall i :: 0 <= i < |d.chapters| ==> d.chapters[i] <= high
    ensures AnswersMoved(d, Dated(d.entries, Renumber(d.chapters, v, modulus)), low, v)
  {
    hide Distinct, View, Pick;
    var cs := Renumber(d.chapters, v, modulus);
    forall key: nat, name: Name, first: nat | low <= first
      ensures Pick(Dated(d.entries, cs), key, name, first, v + 1) == Pick(d, key, name, first, v)
    {
      SamePick(d.entries, d.chapters, cs, key, name, first, v, first, v + 1);
    }
  }

  lemma FlushedAnswers(f: Format, d: Dated, modulus: nat, low: nat, high: nat, v: nat)
    requires IsModulus(modulus) && modulus > 0 && IsDated(d, modulus) && WellFormed(f, d.entries)
    requires low < v <= high < low + modulus && v < modulus && Distinct(View(d.entries))
    requires forall i :: 0 <= i < |d.chapters| ==> d.chapters[i] <= high
    ensures AnswersMoved(d, BackList(d, low, v, modulus), low, v)
  {
    hide IsModulus, WellFormed, Distinct, View, FlushFrom, Flushed, Pick, Rows, Live, Older, Kept;
    var r := NewestRange(low, v, modulus);
    var e := FlushFrom(r, d, 0);
    forall i | 0 <= i < |d.chapters|
      ensures Flushed(r, d.entries[i].value) ==> !(low <= d.chapters[i] < v)
    {
      NewestIsFlushed(modulus, low, high, v, d.chapters[i]);
    }
    FlushKeepsNames(f, r, d, 0);
    AllBefore(f, d, modulus, low, high, v);
    assert e == BackList(d, low, v, modulus);
    forall key: nat, name: Name, first: nat | low <= first
      ensures Pick(e, key, name, first, v + 1) == Pick(d, key, name, first, v)
    {
      FlushPick(f, r, d, 0, key, name, first, v);
      SamePick(e.entries, e.chapters, e.chapters, key, name, first, v, first, v + 1);
    }
  }

  /** The slow path leaves only chapters before v. */
  lemma AllBefore(f: Format, d: Dated, modulus: nat, low: nat, high: nat, v: nat)
    requires IsModulus(modulus) && modulus > 0 && IsDated(d, modulus) && WellFormed(f, d.entries)
    requires low < v <= high < low + modulus && v < modulus
    requires forall i :: 0 <= i < |d.chapters| ==> d.chapters[i] <= high
    ensures var e := BackList(d, low, v, modulus); forall i :: 0 <= i < |e.chapters| ==> e.chapters[i] < v
  {
    hide IsModulus, WellFormed, FlushFrom, Flushed, Live, Kept, Older;
    var r := NewestRange(low, v, modulus);
    var e := FlushFrom(r, d, 0);
    FlushRows(f, r, d, 0);
    assert Rows(d)[..0] == [] && Rows(d)[0..] == Rows(d);
    KeptIsOlder(modulus, low, high, v, Rows(d));
    forall i | 0 <= i < |e.chapters|
      ensures e.chapters[i] < v
    {
      OlderMeaning(Live(Rows(d), low), v, Rows(e)[i]);
    }
  }

  /** Every list and flush chapter has gone back to v. */
  ghost predicate WentBack(ess: seq<seq<Entry>>, css: seq<seq<nat>>, flushes: seq<nat>, ess': seq<seq<Entry>>,
      css': seq<seq<nat>>, flushes': seq<nat>, low: nat, v: nat, modulus: nat)
    requires modulus > 0 && low <= v <= low + modulus
  {
    && |ess| == |css| == |flushes| == |ess'| == |css'| == |flushes'|
    && (forall k :: 0 <= k < |flushes| ==> flushes'[k] == BackFlush(flushes[k], v, modulus))
    && forall k :: 0 <= k < |ess| ==>
      |ess[k]| == |css[k]| && Dated(ess'[k], css'[k]) == BackList(Dated(ess[k], css[k]), low, v, modulus)
  }

  lemma WentBackDated(f: Format, ess: seq<seq<Entry>>, css: seq<seq<nat>>, flushes: seq<nat>, ess': seq<seq<Entry>>,
      css': seq<seq<nat>>, flushes': seq<nat>, low: nat, v: nat, modulus: nat)
    requires modulus > 0 && low <= v <= low + modulus && AllDated(ess, css, modulus) && AllNamed(ess)
    requires forall k :: 0 <= k < |ess| ==> WellFormed(f, ess[k])
    requires WentBack(ess, css, flushes, ess', css', flushes', low, v, modulus)
    ensures AllDated(ess', css', modulus) && AllNamed(ess') && (v >= modulus ==> NoneAhead(flushes', v))
  {
    hide WellFormed, Distinct, View, BackList, IsDated;
    forall k | 0 <= k < |ess|
      ensures IsDated(Dated(ess'[k], css'[k]), modulus) && Distinct(View(ess'[k]))
    {
      AllDatedAt(ess, css, modulus, k);
      BackKeepsForm(f, Dated(ess[k], css[k]), low, v, modulus);
      assert Dated(ess'[k], css'[k]) == BackList(Dated(ess[k], css[k]), low, v, modulus);
    }
  }

  lemma WentBackMoved(f: Format, ess: seq<seq<Entry>>, css: seq<seq<nat>>, flushes: seq<nat>, ess': seq<seq<Entry>>,
      css': seq<seq<nat>>, flushes': seq<nat>, low: nat, high: nat, v: nat, modulus: nat)
    requires IsModulus(modulus) && modulus > 0 && low < v <= high < low + modulus
    requires AllDates(ess, css, flushes, modulus, high) && AllNamed(ess)
    requires forall k :: 0 <= k < |ess| ==> WellFormed(f, ess[k])
    requires WentBack(ess, css, flushes, ess', css', flushes', low, v, modulus)
    ensures AllDates(ess', css', flushes', modulus, v) && AllMoved(ess, css, ess', css', low, low, v)
    ensures AllAnswersMoved(ess, css, ess', css', low, v)
  {
    hide IsModulus, WellFormed, Distinct, View, BackList, GoodDates, ListMoved, AnswersMoved, AllDates;
    forall k | 0 <= k < |ess|
      ensures GoodDates(Dated(ess'[k], css'[k]), flushes'[k], modulus, v)
      ensures ListMoved(Dated(ess[k], css[k]), Dated(ess'[k], css'[k]), low, low, v)
      ensures AnswersMoved(Dated(ess[k], css[k]), Dated(ess'[k], css'[k]), low, v)
    {
      AllDatesAt(ess, css, flushes, modulus, high, k);
      BackMoves(f, Dated(ess[k], css[k]), flushes[k], modulus, low, high, v);
      assert Dated(ess'[k], css'[k]) == BackList(Dated(ess[k], css[k]), low, v, modulus);
    }
    DatesAll(ess', css', flushes', modulus, v);
  }

  /** No list has two records with the same key and name. */
  ghost predicate AllNamed(ess: seq<seq<Entry>>) {
    forall k :: 0 <= k < |ess| ==> Distinct(View(ess[k]))
  }

  lemma AllNamedAt(ess: seq<seq<Entry>>, k: nat)
    requires AllNamed(ess) && k < |ess|
    ensures Distinct(View(ess[k]))
  {
  }

  lemma AllNamedEdit(ess: seq<seq<Entry>>, ess': seq<seq<Entry>>, list: nat)
    requires AllNamed(ess) && list < |ess| == |ess'| && ess' == ess[list := ess'[list]] && Distinct(View(ess'[list]))
    ensures AllNamed(ess')
  {
    hide Distinct, View;
  }

  lemma NoneNamed(ess: seq<seq<Entry>>)
    requires forall k :: 0 <= k < |ess| ==> ess[k] == []
    ensures AllNamed(ess)
  {
  }

  /** Every name of every list has the answer that it had among the chapters before v. */
  ghost predicate AllAnswersMoved(ess: seq<seq<Entry>>, css: seq<seq<nat>>, ess': seq<seq<Entry>>, css': seq<seq<nat>>,
      low: nat, v: nat)
  {
    && |ess| == |css| == |ess'| == |css'|
    && forall k :: 0 <= k < |ess| ==> AnswersMoved(Dated(ess[k], css[k]), Dated(ess'[k], css'[k]), low, v)
  }

  lemma LaterAnswers(ess: seq<seq<Entry>>, css: seq<seq<nat>>, ess': seq<seq<Entry>>, css': seq<seq<nat>>, low: nat,
      low': nat, v: nat)
    requires AllAnswersMoved(ess, css, ess', css', low, v) && low <= low'
    ensures AllAnswersMoved(ess, css, ess', css', low', v)
  {
    hide Pick;
    forall k | 0 <= k < |ess|
      ensures AnswersMoved(Dated(ess[k], css[k]), Dated(ess'[k], css'[k]), low', v)
    {
      assert AnswersMoved(Dated(ess[k], css[k]), Dated(ess'[k], css'[k]), low, v);
    }
  }

  lemma ClearedAnswers(ess: seq<seq<Entry>>, css: seq<seq<nat>>, modulus: nat, v: nat)
    requires modulus > 0 && AllDated(ess, css, modulus)
    ensures AllAnswersMoved(ess, css, seq(|ess|, _ => []), seq(|css|, _ => []), v, v)
  {
    hide AnswersMoved, IsDated;
    forall k | 0 <= k < |ess|
      ensures AnswersMoved(Dated(ess[k], css[k]), Dated([], []), v, v)
    {
      AllDatedAt(ess, css, modulus, k);
      NothingMoved(Dated(ess[k], css[k]), v);
    }
  }

  lemma NothingMoved(d: Dated, v: nat)
    requires |d.entries| == |d.chapters|
    ensures AnswersMoved(d, Dated([], []), v, v)
  {
    hide Pick, View;
    forall key: nat, name: Name, first: nat | v <= first
      ensures Pick(Dated([], []), key, name, first, v + 1) == Pick(d, key, name, first, v)
    {
      NoPick(Dated([], []), key, name, first, v + 1);
      NoPick(d, key, name, first, v);
    }
  }

  lemma ForwardAnswers(ess: seq<seq<Entry>>, css: seq<seq<nat>>, flushes: seq<nat>, modulus: nat, high: nat, low: nat,
      v: nat)
    requires modulus > 0 && AllDates(ess, css, flushes, modulus, high) && AllNamed(ess) && high < v
    ensures AllAnswersMoved(ess, css, ess, css, low, v)
  {
    hide Pick, Distinct, View;
    forall k, key: nat, name: Name, first: nat | 0 <= k < |ess| && low <= first
      ensures |ess[k]| == |css[k]|
      ensures Pick(Dated(ess[k], css[k]), key, name, first, v + 1) == Pick(Dated(ess[k], css[k]), key, name, first, v)
    {
      AllDatesAt(ess, css, flushes, modulus, high, k);
      NotAbove(Dated(ess[k], css[k]), flushes[k], modulus, high);
      SamePick(ess[k], css[k], css[k], key, name, first, v, first, v + 1);
    }
  }

  /** A lookup changes no answer. */
  lemma CleanedAnswers(f: Format, d: Dated, flush: nat, low: nat, high: nat, modulus: nat)
    requires IsModulus(modulus) && modulus > 0 && GoodDates(d, flush, modulus, high) && WellFormed(f, d.entries)
    requires Distinct(View(d.entries))
    ensures |d.entries| == |d.chapters| && SameAnswers(d, Cleaned(d, flush, low, modulus), low, high + 1)
  {
    hide IsModulus, WellFormed, Distinct, View, FlushFrom, Flushed, Pick, ExpiredRange;
    if flush < low {
      ExpiredModulus(flush, low, modulus);
      var r, end := ExpiredRange(flush, low, modulus), high + 1;
      forall i | 0 <= i < |d.chapters|
        ensures Flushed(r, d.entries[i].value) ==> !(low <= d.chapters[i] < end)
      {
        ExpiredIsFlushed(flush, low, modulus, d.chapters[i]);
      }
      forall key: nat, name: Name
        ensures Pick(FlushFrom(r, d, 0), key, name, low, end) == Pick(d, key, name, low, end)
      {
        FlushPick(f, r, d, 0, key, name, low, end);
      }
    }
  }

  lemma CleanedNames(f: Format, d: Dated, flush: nat, low: nat, modulus: nat)
    requires modulus > 0 && |d.entries| == |d.chapters| && WellFormed(f, d.entries) && Distinct(View(d.entries))
    ensures Distinct(View(Cleaned(d, flush, low, modulus).entries))
  {
    hide WellFormed, Distinct, View, FlushFrom;
    if flush < low {
      ExpiredModulus(flush, low, modulus);
      FlushKeepsNames(f, ExpiredRange(flush, low, modulus), d, 0);
    }
  }

  /** A put after a search keeps names distinct. If all records count, it gives the name
      its chapter and keeps every other answer. */
  lemma PutKeepsAnswers(f: Format, d: Dated, key: nat, name: Name, chapter: nat, low: nat, high: nat)
    requires WellFormed(f, d.entries) && |d.entries| == |d.chapters| && Distinct(View(d.entries)) && key <= f.maxKey
    requires var j := Locate(d.entries, key, name);
      j < |d.entries| && KeyAt(d.entries, j) == key ==> d.entries[j].name.None?
    ensures var j := Locate(d.entries, key, name);
      var put := if j < |d.entries| && KeyAt(d.entries, j) == key then Some(name) else None;
      && PutAllowed(d.entries, j, key, put)
      && var e := PutDated(d, j, key, chapter, Pow2(f.valueBits), put);
      && Distinct(View(e.entries))
      && (AllCount(d.chapters, low, high) && low <= chapter < high ==>
            AnswerGained(d, e, key, name, chapter, low, high))
  {
    hide KeySum, Locate, WellFormed, Distinct, View, PutEntry, ChapterAnswers.Answer, Pow2, AnswerGained, PutAllowed;
    var j := Locate(d.entries, key, name);
    var put := if j < |d.entries| && KeyAt(d.entries, j) == key then Some(name) else None;
    ChapterAnswers.PutAnswers(f, d.entries, key, name, chapter % Pow2(f.valueBits));
    var e := PutDated(d, j, key, chapter, Pow2(f.valueBits), put);
    var p := if put.Some? then j + 1 else j;
    PutIsAdded(f, d, key, name, chapter);
    if AllCount(d.chapters, low, high) && low <= chapter < high {
      AddedAnswers(f, d, e, p, Record(key, chapter % Pow2(f.valueBits), put), chapter, name, low, high);
    }
  }

  ghost predicate AllCount(cs: seq<nat>, low: nat, high: nat) {
    forall k :: 0 <= k < |cs| ==> low <= cs[k] < high
  }

  /** After a lookup all records of a list count. */
  lemma DatesCount(d: Dated, flush: nat, modulus: nat, low: nat, high: nat)
    requires modulus > 0 && GoodDates(d, flush, modulus, high) && low <= flush
    ensures AllCount(d.chapters, low, high + 1)
  {
  }

  lemma PutIsAdded(f: Format, d: Dated, key: nat, name: Name, chapter: nat)
    requires WellFormed(f, d.entries) && |d.entries| == |d.chapters| && key <= f.maxKey
    requires var j := Locate(d.entries, key, name);
      j < |d.entries| && KeyAt(d.entries, j) == key ==> d.entries[j].name.None?
    ensures var j, v := Locate(d.entries, key, name), View(d.entries);
      var put := if j < |d.entries| && KeyAt(d.entries, j) == key then Some(name) else None;
      && PutAllowed(d.entries, j, key, put)
      && IsAdded(d, PutDated(d, j, key, chapter, Pow2(f.valueBits), put), if put.Some? then j + 1 else j,
          Record(key, chapter % Pow2(f.valueBits), put), chapter)
      && (put.Some? ==> j < |v| && v[j].key == key)
      && (put.None? ==> forall k :: 0 <= k < |v| ==> v[k].key != key)
  {
    hide KeySum, Locate, WellFormed, ChapterAnswers.Answer, Pow2, InsertPlain, InsertCollision;
    var es, j := d.entries, Locate(d.entries, key, name);
    ChapterAnswers.FoundInView(f, es, key, name);
    if j < |es| && KeyAt(es, j) == key {
      InsertCollisionView(f, es, j, chapter % Pow2(f.valueBits), name);
    } else {
      InsertPlainView(f, es, j, key, chapter % Pow2(f.valueBits));
    }
  }

  lemma AddedAnswers(f: Format, d: Dated, e: Dated, p: nat, r: Record, chapter: nat, name: Name, low: nat, high: nat)
    requires IsAdded(d, e, p, r, chapter) && Distinct(View(d.entries)) && Distinct(View(e.entries))
    requires AllCount(d.chapters, low, high) && low <= chapter < high
    requires if r.name.Some? then r.name.value == name && p > 0 && View(d.entries)[p - 1].key == r.key
      else forall k :: 0 <= k < |d.entries| ==> View(d.entries)[k].key != r.key
    ensures AnswerGained(d, e, r.key, name, chapter, low, high)
  {
    hide View, Distinct, Pick, IsAdded;
    assert |d.entries| == |d.chapters| && |e.entries| == |e.chapters| && p <= |d.entries| by {
      AddedLengths(d, e, p, r, chapter);
    }
    AddedPick(d, e, p, r, chapter, name, low, high);
    forall key': nat, name': Name | (key', name') != (r.key, name) && Pick(d, key', name', low, high).Some?
      ensures Pick(e, key', name', low, high) == Pick(d, key', name', low, high)
    {
      if key' == r.key && r.name.None? {
        NoPick(d, key', name', low, high);
        assert false;
      }
      OtherPick(d, e, p, r, chapter, key', name', low, high);
    }
  }

  lemma AddedLengths(d: Dated, e: Dated, p: nat, r: Record, chapter: nat)
    requires IsAdded(d, e, p, r, chapter)
    ensures |d.entries| == |d.chapters| && |e.entries| == |e.chapters| && p <= |d.entries|
  {
  }

  /** Setting the chapter of a record changes the answers that it gives and no others. */
  lemma SetKeepsAnswers(d: Dated, j: nat, chapter: nat, modulus: nat, low: nat, high: nat)
    requires modulus > 0 && j < |d.entries| == |d.chapters| && Distinct(View(d.entries))
    ensures var e := SetDated(d, j, chapter, modulus);
      && Distinct(View(e.entries))
      && (AllCount(d.chapters, low, high) && low <= chapter < high ==> AnswerSet(d, e, j, chapter, low, high))
  {
    hide View, Pick, IsPick;
    var e := SetDated(d, j, chapter, modulus);
    var v, w := View(d.entries), View(e.entries);
    SetKeepsView(d, j, chapter, modulus);
    if AllCount(d.chapters, low, high) && low <= chapter < high {
      forall key: nat, name: Name
        ensures Pick(e, key, name, low, high) == (if IsPick(v, d.chapters, j, key, name, low, high) then Some(chapter)
                                                  else Pick(d, key, name, low, high))
      {
        SetPick(d, e, j, chapter, key, name, low, high);
      }
    }
  }

  lemma SetKeepsView(d: Dated, j: nat, chapter: nat, modulus: nat)
    requires modulus > 0 && j < |d.entries| == |d.chapters|
    ensures var v, w := View(d.entries), View(SetDated(d, j, chapter, modulus).entries);
      |w| == |v| && forall k :: 0 <= k < |v| ==> w[k].key == v[k].key && w[k].name == v[k].name
  {
    var e := SetDated(d, j, chapter, modulus);
    forall k | 0 <= k < |d.entries|
      ensures KeyAt(e.entries, k) == KeyAt(d.entries, k)
    {
      SameKeySum(d.entries, e.entries, j, k + 1);
    }
  }

  lemma SetPick(d: Dated, e: Dated, j: nat, chapter: nat, key: nat, name: Name, low: nat, high: nat)
    requires j < |d.entries| == |d.chapters| == |e.entries| && e.chapters == d.chapters[j := chapter]
    requires forall k :: 0 <= k < |d.entries| ==>
      View(e.entries)[k].key == View(d.entries)[k].key && View(e.entries)[k].name == View(d.entries)[k].name
    requires Distinct(View(d.entries)) && AllCount(d.chapters, low, high) && low <= chapter < high
    ensures Pick(e, key, name, low, high) ==
      (if IsPick(View(d.entries), d.chapters, j, key, name, low, high) then Some(chapter)
       else Pick(d, key, name, low, high))
  {
    hide View, Pick;
    var v, w := View(d.entries), View(e.entries);
    assert Distinct(w);
    assert forall k: nat :: IsAmong(v, d.chapters, k, key, low, high) <==> IsAmong(w, e.chapters, k, key, low, high);
    NoPick(d, key, name, low, high);
    NoPick(e, key, name, low, high);
    if k: nat :| IsAmong(v, d.chapters, k, key, low, high) {
      var i := PickExists(v, d.chapters, k, key, name, low, high);
      assert IsPick(w, e.chapters, i, key, name, low, high);
      PickIs(d, i, key, name, low, high);
      PickIs(e, i, key, name, low, high);
      if IsPick(v, d.chapters, j, key, name, low, high) {
        OnePick(v, d.chapters, i, j, key, name, low, high);
      }
    }
  }

  class MasterIndexZone {
    /** The delta index: a value is the low bits of a chapter number. */
    const index: DeltaIndexZone
    const numChapters: nat
    /** The size limit of the zone, and the expected size of a chapter, in bits. */
    const maxZoneBits: nat
    const chapterZoneBits: nat
    /** For each list, the first chapter that may still have to be flushed. */
    var flushChapters: seq<nat>
    /** The range of chapters being indexed. */
    var virtualChapterLow: nat
    var virtualChapterHigh: nat
    /** The true chapters of the entries of each list. */
    ghost var chapters: seq<seq<nat>>

    /** The invariant of the master index: the chapters of a list lie in a window
        that starts at its flush chapter and is no wider than the stored bits. */
    ghost predicate Valid()
      reads this, index, index.zone, index.zone.memory
    {
      Windows() && NoneAhead(flushChapters, virtualChapterHigh)
    }

    ghost predicate Windows()
      reads this, index, index.zone, index.zone.memory
    {
      && index.Valid() && |flushChapters| == |chapters| == |index.entries|
      && 0 < numChapters <= Modulus() && chapterZoneBits > 0
      && virtualChapterLow <= virtualChapterHigh < virtualChapterLow + numChapters && AllNamed(index.entries)
      && AllDates(index.entries, chapters, flushChapters, Modulus(), virtualChapterHigh)
    }

    /** What holds whatever chapters are put: every value is the low bits of a chapter, and
        no two records of a list are for the same name. */
    ghost predicate Based()
      reads this, index, index.zone, index.zone.memory
    {
      && index.Valid() && |flushChapters| == |chapters| == |index.entries|
      && 0 < numChapters <= Modulus() && chapterZoneBits > 0
      && virtualChapterLow <= virtualChapterHigh < virtualChapterLow + numChapters && AllNamed(index.entries)
      && AllDated(index.entries, chapters, Modulus())
    }

    lemma WindowsAreBased()
      requires Windows()
      ensures Based()
    {
      hide DeltaIndexZone.Valid, GoodDates, IsDated, Pow2;
      forall k | 0 <= k < |chapters|
        ensures IsDated(Dated(index.entries[k], chapters[k]), Modulus())
      {
        AllDatesAt(index.entries, chapters, flushChapters, Modulus(), virtualChapterHigh, k);
      }
    }

    /** chapterMask + 1. */
    function Modulus(): (m: nat)
      ensures m > 0
    {
      Pow2(index.format.valueBits)
    }

    /** An empty master index zone. */
    constructor (numChapters: nat, maxZoneBits: nat, chapterZoneBits: nat, size: nat, firstList: nat, numLists: nat,
        tag: char, format: Format)
      requires IsFormat(format) && size >= 7 && numLists > 0 && 0 < numChapters <= Pow2(format.valueBits) &&
        chapterZoneBits > 0
      ensures Valid() && fresh(index) && fresh(index.zone) && fresh(index.zone.memory)
      ensures this.numChapters == numChapters && index.format == format && index.zone.memory.Length == size
      ensures virtualChapterLow == virtualChapterHigh == 0 && flushChapters == seq(numLists, _ => 0)
      ensures index.entries == seq(numLists, _ => []) && chapters == seq(numLists, _ => []) && !index.zone.writing
      ensures this.maxZoneBits == maxZoneBits
    {
      hide DeltaIndexZone.Valid, DeltaIndexZone.DataValid, Pow2, IsFormat;
      index := new DeltaIndexZone(size, firstList, numLists, tag, format);
      this.numChapters, this.maxZoneBits, this.chapterZoneBits := numChapters, maxZoneBits, chapterZoneBits;
      flushChapters := seq(numLists, _ => 0);
      virtualChapterLow, virtualChapterHigh := 0, 0;
      chapters := seq(numLists, _ => []);
    }

    ghost function DatedList(list: nat): Dated
      requires list < |index.entries| == |chapters|
      reads this, index
    {
      Dated(index.entries[list], chapters[list])
    }

    /** Step to the next entry, removing entries in the range on the way. */
    method FlushInvalid(list: nat, cur: Cursor, r: Range, nextChapter: nat, ghost j: nat)
      returns (cur': Cursor, nextChapter': nat)
      requires index.Valid() && list < |index.entries| == |chapters| && !index.zone.flags[list]
      requires r.modulus > 0 && IsDated(DatedList(list), r.modulus)
      requires cur.list == list && Ready(index.format, index.entries[list], cur, j)
      modifies this`chapters, index, index.zone`lists, index.zone.memory
      ensures index.Valid()
      ensures OnlyList(list, old(index.entries), index.entries, old(chapters), chapters)
      ensures cur'.list == list && At(index.format, index.entries[list], cur', j)
      ensures Stepped(r, old(DatedList(list)), DatedList(list), j, nextChapter, nextChapter')
    {
      hide DeltaIndexZone.Valid, DeltaIndexZone.DataValid, IsDated, At, Ready, Relative, FlushFrom, RemoveEntry, Stored,
        FlushedTo, Stepped, WellFormed, Pow2;
      index.Basics();
      var status;
      index.ListIsStored(list);
      ReadyBounds(index.format, index.entries[list], cur, j);
      FlushedNothing(r, DatedList(list), j);
      status, cur' := Next(index.format, index.zone.memory, index.zone.lists[list + 1], cur, index.entries[list], j);
      nextChapter' := nextChapter;
      ghost var d0 := DatedList(list);
      AtKey(index.format, index.entries[list], cur', j);
      while !cur'.atEnd
        invariant index.Valid() && OnlyList(list, old(index.entries), index.entries, old(chapters), chapters)
        invariant cur'.list == list && At(index.format, index.entries[list], cur', j)
        invariant FlushedTo(r, d0, DatedList(list), j)
        decreases |index.entries[list]|
      {
        AtKey(index.format, index.entries[list], cur', j);
        var value := index.GetValue(cur', j);
        var relative := Relative(r, value);
        if relative >= r.count {
          if relative < nextChapter {
            nextChapter' := relative;
          }
          StepKept(r, d0, DatedList(list), j, nextChapter);
          return;
        }
        ghost var d := DatedList(list);
        StepFlushed(r, d0, d, j);
        status, cur' := index.Remove(cur', j);
        chapters := chapters[list := d.chapters[..j] + d.chapters[j + 1..]];
        assert DatedList(list) == Drop(d, j);
      }
      AtKey(index.format, index.entries[list], cur', j);
      StepEnd(r, d0, DatedList(list), j, nextChapter);
    }

    /** The first part of getMasterIndexEntry: flush up to the first entry that is
        kept and whose key is not below the key sought. */
    method WalkToKey(list: nat, key: nat, r: Range) returns (cur: Cursor, next: nat, ghost j: nat)
      requires index.Valid() && list < |index.entries| == |chapters|
      requires r.modulus > 0 && IsDated(DatedList(list), r.modulus)
      modifies this`chapters, index, index.zone`lists, index.zone`flags,
        index.zone`numTransfers, index.zone`written, index.zone.memory
      ensures index.Valid() && OnlyList(list, old(index.entries), index.entries, old(chapters), chapters)
      ensures !index.zone.flags[list]
      ensures cur.list == list && At(index.format, index.entries[list], cur, j)
      ensures Passed(r, old(DatedList(list)), DatedList(list), j, next)
      ensures IsSeek(index.entries[list], key, j)
    {
      hide DeltaIndexZone.Valid, DeltaIndexZone.DataValid, IsDated, At, Ready, Relative, FlushFrom, KeySum, Stepped,
        Passed;
      index.Basics();
      ghost var d0 := DatedList(list);
      ghost var i;
      var status;
      status, cur, i := index.StartSearch(list, 0, false);
      index.Basics();
      cur, next := FlushInvalid(list, cur, r, r.modulus - 1, i);
      j := 0;
      FirstPassed(r, d0, DatedList(list), r.modulus - 1, next);
      AtKey(index.format, index.entries[list], cur, j);
      while !cur.atEnd && key > cur.key
        invariant index.Valid() && OnlyList(list, old(index.entries), index.entries, old(chapters), chapters)
        invariant |index.zone.flags| > list && !index.zone.flags[list]
        invariant cur.list == list && At(index.format, index.entries[list], cur, j)
        invariant j <= |index.entries[list]| && cur.atEnd == (j == |index.entries[list]|)
        invariant Passed(r, d0, DatedList(list), j, next)
        invariant j > 0 ==> KeySum(index.entries[list][..j]) < key
        decreases |index.entries[list]| - j
      {
        ghost var d1, next1 := DatedList(list), next;
        AtKey(index.format, index.entries[list], cur, j);
        AtIsReady(index.format, index.entries[list], cur, j);
        PassedIsDated(r, d0, d1, j, next);
        cur, next := FlushInvalid(list, cur, r, next, j + 1);
        NextPassed(r, d0, d1, DatedList(list), j, next1, next);
        j := j + 1;
        AtKey(index.format, index.entries[list], cur, j);
      }
      AtKey(index.format, index.entries[list], cur, j);
    }

    /** The second part: among the collisions after the entry found, flushing as it
        goes, look for the one with the name. */
    method WalkGroup(list: nat, cur: Cursor, name: Name, r: Range, next: nat, ghost d0: Dated, ghost j: nat)
      returns (found: Cursor, other: Cursor, next': nat, ghost k: nat, ghost p: nat)
      requires index.Valid() && list < |index.entries| == |chapters| && !index.zone.flags[list]
      requires r.modulus > 0 && Passed(r, d0, DatedList(list), j, next) && j < |index.entries[list]|
      requires cur.list == list && At(index.format, index.entries[list], cur, j)
      modifies this`chapters, index, index.zone`lists, index.zone.memory
      ensures index.Valid() && OnlyList(list, old(index.entries), index.entries, old(chapters), chapters)
      ensures found.list == list && At(index.format, index.entries[list], found, p)
      ensures other.list == list && At(index.format, index.entries[list], other, k)
      ensures Passed(r, d0, DatedList(list), k, next')
      ensures GroupDone(index.entries[list], j, name, k, p) &&
        index.entries[list][..j + 1] == old(index.entries)[list][..j + 1]
    {
      hide DeltaIndexZone.Valid, DeltaIndexZone.DataValid, IsDated, At, Ready, Relative, FlushFrom, KeySum, Stepped,
        Passed;
      index.Basics();
      found, other, next', k, p := cur, cur, next, j, j;
      while true
        invariant index.Valid() && OnlyList(list, old(index.entries), index.entries, old(chapters), chapters)
        invariant |index.zone.flags| > list && !index.zone.flags[list]
        invariant other.list == list && j <= k < |index.entries[list]| &&
          At(index.format, index.entries[list], other, k)
        invariant At(index.format, index.entries[list], cur, j)
        invariant Passed(r, d0, DatedList(list), k, next')
        invariant NotAmong(index.entries[list], j, name, k) &&
          index.entries[list][..j + 1] == old(index.entries)[list][..j + 1]
        decreases |index.entries[list]| - k
      {
        ghost var d1, next1 := DatedList(list), next';
        AtIsReady(index.format, index.entries[list], other, k);
        PassedIsDated(r, d0, d1, k, next');
        other, next' := FlushInvalid(list, other, r, next', k + 1);
        NextPassed(r, d0, d1, DatedList(list), k, next1, next');
        PrefixKept(index.format, d1.entries, index.entries[list], k, cur, j, name);
        k := k + 1;
        AtKey(index.format, index.entries[list], other, k);
        if other.atEnd || !other.isCollision {
          return;
        }
        var status, collisionName := index.GetCollision(other, k);
        if collisionName == name {
          found, p := other, k;
          return;
        }
      }
    }

    /** The last part: flush the rest of the list. */
    method WalkRest(list: nat, cur: Cursor, r: Range, next: nat, ghost d0: Dated, ghost j: nat) returns (next': nat)
      requires index.Valid() && list < |index.entries| == |chapters| && !index.zone.flags[list]
      requires r.modulus > 0 && Passed(r, d0, DatedList(list), j, next)
      requires cur.list == list && At(index.format, index.entries[list], cur, j)
      modifies this`chapters, index, index.zone`lists, index.zone.memory
      ensures index.Valid() && OnlyList(list, old(index.entries), index.entries, old(chapters), chapters)
      ensures DatedList(list) == FlushFrom(r, d0, 0) && next' == MinRelative(r, index.entries[list])
      ensures if j < |old(index.entries)[list]| then
          j < |index.entries[list]| && index.entries[list][..j + 1] == old(index.entries)[list][..j + 1]
        else index.entries == old(index.entries)
    {
      hide DeltaIndexZone.Valid, DeltaIndexZone.DataValid, IsDated, At, Ready, Relative, FlushFrom, KeySum, Stepped,
        Passed;
      index.Basics();
      var other := cur;
      next' := next;
      ghost var k := j;
      AtKey(index.format, index.entries[list], other, k);
      while !other.atEnd
        invariant index.Valid() && OnlyList(list, old(index.entries), index.entries, old(chapters), chapters)
        invariant |index.zone.flags| > list && !index.zone.flags[list]
        invariant other.list == list && j <= k <= |index.entries[list]| &&
          At(index.format, index.entries[list], other, k)
        invariant other.atEnd == (k == |index.entries[list]|)
        invariant Passed(r, d0, DatedList(list), k, next')
        invariant if j < |old(index.entries)[list]| then
            j < |index.entries[list]| && index.entries[list][..j + 1] == old(index.entries)[list][..j + 1]
          else index.entries == old(index.entries)
        decreases |index.entries[list]| - k
      {
        ghost var d1, next1 := DatedList(list), next';
        AtIsReady(index.format, index.entries[list], other, k);
        PassedIsDated(r, d0, d1, k, next');
        other, next' := FlushInvalid(list, other, r, next', k + 1);
        NextPassed(r, d0, d1, DatedList(list), k, next1, next');
        ShorterPrefix(d1.entries, index.entries[list], k + 1, j + 1);
        k := k + 1;
        AtKey(index.format, index.entries[list], other, k);
      }
      AllPassed(r, d0, DatedList(list), k, next');
    }

    /** Find the entry of a name while flushing a range of chapters from the whole
        list, and compute where the next flush has to start. */
    method GetEntry(list: nat, key: nat, name: Name, r: Range) returns (cur: Cursor, start: nat)
      requires index.Valid() && list < |index.entries| == |chapters|
      requires r.modulus > 0 && IsDated(DatedList(list), r.modulus)
      modifies this`chapters, index, index.zone`lists, index.zone`flags,
        index.zone`numTransfers, index.zone`written, index.zone.memory
      ensures index.Valid() && OnlyList(list, old(index.entries), index.entries, old(chapters), chapters)
      ensures !index.zone.flags[list]
      ensures DatedList(list) == FlushFrom(r, old(DatedList(list)), 0)
      ensures cur.list == list && At(index.format, index.entries[list], cur, Locate(index.entries[list], key, name))
      ensures start == ((MinRelative(r, index.entries[list]) + r.start) % UINT32_RANGE) % r.modulus
    {
      hide DeltaIndexZone.Valid, DeltaIndexZone.DataValid, IsDated, At, FlushFrom, KeySum, Passed, WellFormed, Locate,
        IsSeek, GroupDone;
      ghost var d0 := DatedList(list);
      var next;
      ghost var j;
      cur, next, j := WalkToKey(list, key, r);
      index.Basics();
      ghost var a := index.entries[list];
      AtKey(index.format, a, cur, j);
      SeekBounds(a, key, j);
      if j < |a| {
        SeekPlain(index.format, a, key, j);
      }
      var status := index.Remember(cur, j);
      var other := cur;
      ghost var k, p := j, j;
      if !cur.atEnd && key == cur.key {
        cur, other, next, k, p := WalkGroup(list, cur, name, r, next, d0, j);
        ghost var b := index.entries[list];
        GroupBounds(b, j, name, k, p);
        SeekKept(a, b, key, j);
        next := WalkRest(list, other, r, next, d0, k);
        GroupKept(b, index.entries[list], j, name, k, p);
        FoundKept(index.format, b, index.entries[list], cur, j, name, k, p, key);
      } else {
        next := WalkRest(list, other, r, next, d0, k);
        if j < |a| {
          SeekKept(a, index.entries[list], key, j);
          AtPrefix(index.format, a, index.entries[list], cur, j, j + 1);
        }
      }
      WalkFinds(index.entries[list], key, name, j, k, p);
      start := ((next + r.start) % UINT32_RANGE) % r.modulus;
    }

    lemma ModulusIs()
      requires index.Valid()
      ensures IsModulus(Modulus()) && index.format.coding.incrKeys > 0 && index.format.valueBits <= 25
    {
      hide DeltaIndexZone.Valid, DeltaIndexZone.DataValid, Pow2;
      index.Basics();
      FormatBasics(index.format);
    }

    /** Find the entry of a name, after removing the entries of expired chapters
        from its list if there may be any. */
    method FindEntry(list: nat, key: nat, name: Name) returns (cur: Cursor)
      requires Based() && list < |flushChapters|
      modifies this`chapters, this`flushChapters, index, index.zone`lists, index.zone`flags,
        index.zone`numTransfers, index.zone`written, index.zone.memory
      ensures Based() && OnlyList(list, old(index.entries), index.entries, old(chapters), chapters)
      ensures |old(index.entries)[list]| == |old(chapters)[list]| &&
        DatedList(list) == Cleaned(old(DatedList(list)), old(flushChapters[list]), virtualChapterLow, Modulus())
      ensures flushChapters == old(flushChapters)[list := flushChapters[list]] &&
        virtualChapterLow <= flushChapters[list]
      ensures old(flushChapters[list]) >= virtualChapterLow ==> flushChapters == old(flushChapters)
      ensures !index.zone.flags[list]
      ensures cur.list == list && At(index.format, index.entries[list], cur, Locate(index.entries[list], key, name))
      ensures old(Valid()) ==> Valid() && Rows(DatedList(list)) == Live(old(Rows(DatedList(list))), virtualChapterLow)
      ensures old(Valid()) ==>
        SameAnswers(old(DatedList(list)), DatedList(list), virtualChapterLow, virtualChapterHigh + 1)
      ensures old(flushChapters[list]) < virtualChapterLow && index.entries[list] == [] ==>
        flushChapters[list] == EmptyFlush(old(flushChapters[list]), virtualChapterLow, virtualChapterHigh, Modulus())
    {
      hide DeltaIndexZone.Valid, DeltaIndexZone.DataValid, IsModulus, At, Live, Locate, Pow2, WellFormed, AllDates,
        GoodDates, Rows, NoneAhead, AllDated, FlushFrom, AllNamed, Pick;
      index.Basics();
      AllDatedAt(index.entries, chapters, Modulus(), list);
      if flushChapters[list] < virtualChapterLow {
        cur := FlushAndFind(list, key, name);
      } else {
        if Valid() {
          AllDatesAt(index.entries, chapters, flushChapters, Modulus(), virtualChapterHigh, list);
          AllRowsLive(DatedList(list), flushChapters[list], Modulus(), virtualChapterHigh, virtualChapterLow);
        }
        var status;
        status, cur := index.Get(list, key, name, false);
      }
      index.Basics();
    }

    /** Remove the entries of expired chapters from a list, find the entry of a name,
        and note the oldest chapter left. */
    method FlushAndFind(list: nat, key: nat, name: Name) returns (cur: Cursor)
      requires Based() && list < |flushChapters| && flushChapters[list] < virtualChapterLow
      modifies this`chapters, this`flushChapters, index, index.zone`lists, index.zone`flags,
        index.zone`numTransfers, index.zone`written, index.zone.memory
      ensures Based() && OnlyList(list, old(index.entries), index.entries, old(chapters), chapters)
      ensures |old(index.entries)[list]| == |old(chapters)[list]| && |index.entries[list]| == |chapters[list]| &&
        DatedList(list) == Cleaned(old(DatedList(list)), old(flushChapters[list]), virtualChapterLow, Modulus())
      ensures flushChapters == old(flushChapters)[list := flushChapters[list]] &&
        virtualChapterLow <= flushChapters[list]
      ensures |index.zone.flags| == |index.entries| && !index.zone.flags[list] && index.format.coding.incrKeys > 0
      ensures cur.list == list && At(index.format, index.entries[list], cur, Locate(index.entries[list], key, name))
      ensures old(Valid()) ==> Valid() && Rows(DatedList(list)) == Live(old(Rows(DatedList(list))), virtualChapterLow)
      ensures old(Valid()) ==>
        SameAnswers(old(DatedList(list)), DatedList(list), virtualChapterLow, virtualChapterHigh + 1)
      ensures index.entries[list] == [] ==>
        flushChapters[list] == EmptyFlush(old(flushChapters[list]), virtualChapterLow, virtualChapterHigh, Modulus())
    {
      hide DeltaIndexZone.Valid, DeltaIndexZone.DataValid, IsDated, IsModulus, At, Live, ToVirtual, Locate, Pow2,
        MinRelative, FlushFrom, WellFormed, AllDates, GoodDates, Rows, NoneAhead, AllDated, AllNamed, Distinct, View,
        SameAnswers;
      index.Basics();
      ModulusIs();
      var modulus, flush := Modulus(), flushChapters[list];
      ghost var d0, ess, css, flushes, valid := DatedList(list), index.entries, chapters, flushChapters, Valid();
      AllDatedAt(ess, css, modulus, list);
      var r := ExpiredRange(flush, virtualChapterLow, modulus);
      ExpiredModulus(flush, virtualChapterLow, modulus);
      var start;
      cur, start := GetEntry(list, key, name, r);
      FlushKeepsForm(index.format, r, d0, 0);
      AllDatedEdit(ess, css, index.entries, chapters, modulus, list);
      AllNamedAt(ess, list);
      CleanedNames(index.format, d0, flush, virtualChapterLow, modulus);
      AllNamedEdit(ess, index.entries, list);
      NoMinRelative(r);
      ghost var was := flush;
      flush := ToVirtual(virtualChapterLow, start, modulus);
      if flush > virtualChapterHigh {
        flush := virtualChapterHigh;
      }
      flushChapters := flushChapters[list := flush];
      if valid {
        AllDatesAt(ess, css, flushes, modulus, virtualChapterHigh, list);
        NewWindow(index.format, d0, was, virtualChapterLow, virtualChapterHigh, modulus, start);
        CleanedAnswers(index.format, d0, was, virtualChapterLow, virtualChapterHigh, modulus);
        AllDatesEdit(ess, css, flushes, index.entries, chapters, flushChapters, modulus, virtualChapterHigh, list);
        NoneAheadStill(flushes, virtualChapterHigh, list, flush);
      }
      index.Basics();
    }

    /** The record describes the present state of its list. */
    ghost predicate Current(rec: MasterRecord)
      reads this, index, index.zone, index.zone.memory
    {
      && rec.list < |index.entries| == |chapters| && rec.list < |index.zone.flags| && !index.zone.flags[rec.list]
      && var es := index.entries[rec.list];
      && |chapters[rec.list]| == |es| && rec.cur.list == rec.list
      && var j := Locate(es, rec.key, rec.name);
      && index.format.coding.incrKeys > 0 && At(index.format, es, rec.cur, j)
      && rec.isFound == (j < |es| && KeyAt(es, j) == rec.key)
      && rec.isCollision == rec.cur.isCollision
    }

    /** The true chapter of the entry that a record found. */
    ghost function ChapterOf(rec: MasterRecord): nat
      requires Current(rec) && rec.isFound
      reads this, index, index.zone, index.zone.memory
    {
      chapters[rec.list][Locate(index.entries[rec.list], rec.key, rec.name)]
    }

    /** After a lookup, the answer for a name is the chapter of the entry that a search of
        its list finds. */
    lemma AnswerIsFound(list: nat, key: nat, name: Name)
      requires Valid() && list < |flushChapters| && virtualChapterLow <= flushChapters[list]
      ensures |index.entries[list]| == |chapters[list]|
      ensures var es, j := index.entries[list], Locate(index.entries[list], key, name);
        && Pick(DatedList(list), key, name, virtualChapterLow, virtualChapterHigh + 1) ==
             (if j < |es| && KeyAt(es, j) == key then Some(chapters[list][j]) else None)
        && (j < |es| ==> IsIndexed(chapters[list][j]))
    {
      hide DeltaIndexZone.Valid, DeltaIndexZone.DataValid, Locate, Pow2, WellFormed, AllDates, GoodDates, AllNamed,
        Distinct, View, Pick, KeySum;
      index.Basics();
      AllNamedAt(index.entries, list);
      AllDatesAt(index.entries, chapters, flushChapters, Modulus(), virtualChapterHigh, list);
      DatesCount(DatedList(list), flushChapters[list], Modulus(), virtualChapterLow, virtualChapterHigh);
      FoundIsPick(index.format, DatedList(list), key, name, virtualChapterLow, virtualChapterHigh + 1);
    }

    /** Find the record of a name. A record that is found is reported in its true
        chapter if and only if that is in the range that the stored bits can tell. If
        the invariant holds, it is one of the chapters being indexed: the answer for the
        name. The answers for all names stay as they were. */
    method GetRecord(list: nat, key: nat, name: Name) returns (rec: MasterRecord)
      requires Based() && list < |flushChapters|
      modifies this`chapters, this`flushChapters, index, index.zone`lists, index.zone`flags,
        index.zone`numTransfers, index.zone`written, index.zone.memory
      ensures Based() && OnlyList(list, old(index.entries), index.entries, old(chapters), chapters)
      ensures |old(index.entries)[list]| == |old(chapters)[list]| &&
        DatedList(list) == Cleaned(old(DatedList(list)), old(flushChapters[list]), virtualChapterLow, Modulus())
      ensures flushChapters == old(flushChapters)[list := flushChapters[list]] &&
        virtualChapterLow <= flushChapters[list]
      ensures old(flushChapters[list]) >= virtualChapterLow ==> flushChapters == old(flushChapters)
      ensures old(flushChapters[list]) < virtualChapterLow && index.entries[list] == [] ==>
        flushChapters[list] == EmptyFlush(old(flushChapters[list]), virtualChapterLow, virtualChapterHigh, Modulus())
      ensures Current(rec) && rec.list == list && rec.key == key && rec.name == name
      ensures rec.isFound ==>
        && rec.virtualChapter == ToVirtual(virtualChapterLow, ChapterOf(rec) % Modulus(), Modulus())
        && (rec.virtualChapter == ChapterOf(rec) <==>
              virtualChapterLow <= ChapterOf(rec) < virtualChapterLow + Modulus())
      ensures old(Valid()) ==>
        && Valid() && Rows(DatedList(list)) == Live(old(Rows(DatedList(list))), virtualChapterLow)
        && SameAnswers(old(DatedList(list)), DatedList(list), virtualChapterLow, virtualChapterHigh + 1)
        && Pick(DatedList(list), key, name, virtualChapterLow, virtualChapterHigh + 1) ==
             (if rec.isFound then Some(rec.virtualChapter) else None)
        && (rec.isFound ==>
              rec.virtualChapter == ChapterOf(rec) && virtualChapterLow <= rec.virtualChapter <= virtualChapterHigh)
    {
      hide DeltaIndexZone.Valid, DeltaIndexZone.DataValid, IsModulus, At, Live, ToVirtual, Locate, Pow2, WellFormed,
        AllDates, GoodDates, Rows, AllDated, Cleaned, EmptyFlush, AllNamed, Distinct, View, Pick, SameAnswers;
      var cur := FindEntry(list, key, name);
      index.Basics();
      ModulusIs();
      ghost var es := index.entries[list];
      ghost var j := Locate(es, key, name);
      AtKey(index.format, es, cur, j);
      AllDatedAt(index.entries, chapters, Modulus(), list);
      rec := MasterRecord(list, key, name, cur, !cur.atEnd && cur.key == key, cur.isCollision, 0);
      if Valid() {
        AnswerIsFound(list, key, name);
      }
      if rec.isFound {
        var value := index.GetValue(cur, j);
        assert value == chapters[list][j] % Modulus();
        TrueChapterExactly(virtualChapterLow, chapters[list][j], Modulus());
        rec := rec.(virtualChapter := ToVirtual(virtualChapterLow, value, Modulus()));
      }
    }

    /** Whether a chapter is in the range of chapters being indexed. */
    predicate IsIndexed(virtualChapter: nat)
      reads this
    {
      virtualChapterLow <= virtualChapter <= virtualChapterHigh
    }

    /** Whether a list can tell a chapter from its low bits. */
    ghost predicate InWindow(list: nat, virtualChapter: nat)
      reads this, index
    {
      list < |flushChapters| && flushChapters[list] <= virtualChapter < flushChapters[list] + Modulus()
    }

    /** Whatever was looked up, the open chapter is in the window of its list. */
    lemma OpenInWindow(list: nat)
      requires Valid() && list < |flushChapters| && virtualChapterLow <= flushChapters[list]
      ensures InWindow(list, virtualChapterHigh)
    {
    }

    /** Add a record for a name that GetRecord looked up. It is a collision if a
        record was found. The invariant is kept if and only if the chapter lies in
        the window of the list, as the open chapter does after GetRecord. The name then
        has its answer, and no other answer changes. */
    method PutRecord(rec: MasterRecord, virtualChapter: nat) returns (status: Status, rec': MasterRecord)
      requires Based() && Current(rec) && rec.key <= index.format.maxKey
      modifies this`chapters, index, index.zone`lists, index.zone.memory
      ensures Based() && OnlyList(rec.list, old(index.entries), index.entries, old(chapters), chapters)
      ensures old(Valid()) ==> (Valid() <==> (status.Success? ==> InWindow(rec.list, virtualChapter)))
      ensures !IsIndexed(virtualChapter) ==> status.InvalidArgument?
      ensures IsIndexed(virtualChapter) ==>
        if rec.isFound && rec.isCollision then status.DuplicateName?
        else
          && var es, j := old(index.entries)[rec.list], Locate(old(index.entries)[rec.list], rec.key, rec.name);
          && var name := if rec.isFound then Some(rec.name) else None;
          && PutAllowed(es, j, rec.key, name)
          && status == if CanGrow(old(index.zone.lists), index.zone.memory.Length, rec.list + 1,
            PutBits(index.format, es, j, rec.key, virtualChapter % Modulus(), name)) then Success else Overflow
      ensures !status.Success? ==> index.entries == old(index.entries) && chapters == old(chapters)
      ensures status.Success? ==>
        && var es, j := old(index.entries)[rec.list], Locate(old(index.entries)[rec.list], rec.key, rec.name);
        && var name := if rec.isFound then Some(rec.name) else None;
        && PutAllowed(es, j, rec.key, name)
        && DatedList(rec.list) == PutDated(old(DatedList(rec.list)), j, rec.key, virtualChapter, Modulus(), name)
        && rec' == rec.(virtualChapter := virtualChapter, isFound := true, isCollision := rec.isFound, cur := rec'.cur)
      ensures status.Success? && old(Valid()) && virtualChapterLow <= flushChapters[rec.list] ==>
        AnswerGained(old(DatedList(rec.list)), DatedList(rec.list), rec.key, rec.name, virtualChapter,
          virtualChapterLow, virtualChapterHigh + 1)
    {
      hide DeltaIndexZone.Valid, DeltaIndexZone.DataValid, IsDated, At, Locate, Pow2, WellFormed, AllDates, GoodDates,
        KeySum, PutEntry, PutBits, CanGrow, AllDated, NoneAhead, AllNamed, Distinct, View, AnswerGained, AllCount;
      rec' := rec;
      if !IsIndexed(virtualChapter) {
        return InvalidArgument, rec';
      }
      index.Basics();
      ModulusIs();
      ghost var list, ess, css, d0, valid := rec.list, index.entries, chapters, DatedList(rec.list), Valid();
      ghost var es := ess[list];
      ghost var j := Locate(es, rec.key, rec.name);
      LocatePlace(index.format, es, rec.key, rec.name);
      AtKey(index.format, es, rec.cur, j);
      AllDatedAt(ess, css, Modulus(), list);
      var name := if rec.isFound then Some(rec.name) else None;
      var cur;
      status, cur := index.Put(rec.cur, rec.key, virtualChapter % Modulus(), name, j);
      if status.Success? {
        ghost var at := if name.Some? then j + 1 else j;
        chapters := chapters[list := css[list][..at] + [virtualChapter] + css[list][at..]];
        PutStaysDated(d0, j, rec.key, virtualChapter, Modulus(), name);
        AllDatedEdit(ess, css, index.entries, chapters, Modulus(), list);
        AllNamedAt(ess, list);
        PutKeepsAnswers(index.format, d0, rec.key, rec.name, virtualChapter, virtualChapterLow, virtualChapterHigh + 1);
        AllNamedEdit(ess, index.entries, list);
        if valid {
          AllDatesAt(ess, css, flushChapters, Modulus(), virtualChapterHigh, list);
          if virtualChapterLow <= flushChapters[list] {
            DatesCount(d0, flushChapters[list], Modulus(), virtualChapterLow, virtualChapterHigh);
          }
          PutIsDated(d0, j, rec.key, virtualChapter, Modulus(), name, flushChapters[list], virtualChapterHigh);
          AllDatesEdit(ess, css, flushChapters, index.entries, chapters, flushChapters, Modulus(), virtualChapterHigh,
            list);
        }
        rec' := rec.(virtualChapter := virtualChapter, isFound := true, isCollision := name.Some?, cur := cur);
      }
    }

    /** Point a record that was found to another chapter. After a lookup only the answers
        that it gives change. */
    method SetRecordChapter(rec: MasterRecord, virtualChapter: nat) returns (status: Status)
      requires Based() && Current(rec)
      modifies this`chapters, index, index.zone.memory
      ensures Based() && OnlyList(rec.list, old(index.entries), index.entries, old(chapters), chapters)
      ensures old(Valid()) ==> (Valid() <==> (status.Success? ==> InWindow(rec.list, virtualChapter)))
      ensures status == if !rec.isFound then BadState else if !IsIndexed(virtualChapter) then InvalidArgument
        else Success
      ensures !status.Success? ==> index.entries == old(index.entries) && chapters == old(chapters)
      ensures status.Success? ==>
        && var j := Locate(old(index.entries)[rec.list], rec.key, rec.name);
        && DatedList(rec.list) == SetDated(old(DatedList(rec.list)), j, virtualChapter, Modulus())
        && (old(Valid()) && virtualChapterLow <= flushChapters[rec.list] ==>
              AnswerSet(old(DatedList(rec.list)), DatedList(rec.list), j, virtualChapter, virtualChapterLow,
                virtualChapterHigh + 1))
    {
      hide DeltaIndexZone.Valid, DeltaIndexZone.DataValid, IsDated, At, Locate, WellFormed, AllDates, GoodDates, KeySum,
        Pow2, AllDated, NoneAhead, AllNamed, Distinct, View, AnswerSet, AllCount;
      if !rec.isFound {
        return BadState;
      }
      if !IsIndexed(virtualChapter) {
        return InvalidArgument;
      }
      index.Basics();
      ghost var list, ess, css, d0, valid := rec.list, index.entries, chapters, DatedList(rec.list), Valid();
      ghost var j := Locate(ess[list], rec.key, rec.name);
      AtKey(index.format, ess[list], rec.cur, j);
      AllDatedAt(ess, css, Modulus(), list);
      status := index.SetValue(rec.cur, virtualChapter % Modulus(), j);
      chapters := chapters[list := css[list][j := virtualChapter]];
      SetStaysDated(d0, j, virtualChapter, Modulus());
      AllDatedEdit(ess, css, index.entries, chapters, Modulus(), list);
      AllNamedAt(ess, list);
      SetKeepsAnswers(d0, j, virtualChapter, Modulus(), virtualChapterLow, virtualChapterHigh + 1);
      AllNamedEdit(ess, index.entries, list);
      if valid {
        AllDatesAt(ess, css, flushChapters, Modulus(), virtualChapterHigh, list);
        if virtualChapterLow <= flushChapters[list] {
          DatesCount(d0, flushChapters[list], Modulus(), virtualChapterLow, virtualChapterHigh);
        }
        SetIsDated(d0, j, virtualChapter, Modulus(), flushChapters[list], virtualChapterHigh);
        AllDatesEdit(ess, css, flushChapters, index.entries, chapters, flushChapters, Modulus(), virtualChapterHigh,
          list);
      }
    }

    /** Remove a record that was found. Only the answers that it gave change. */
    method RemoveRecord(rec: MasterRecord) returns (status: Status)
      requires Based() && Current(rec)
      modifies this`chapters, index, index.zone`lists, index.zone.memory
      ensures Based() && (old(Valid()) ==> Valid())
      ensures OnlyList(rec.list, old(index.entries), index.entries, old(chapters), chapters)
      ensures status == if !rec.isFound then BadState else Success
      ensures !rec.isFound ==> index.entries == old(index.entries) && chapters == old(chapters)
      ensures rec.isFound ==>
        && var j := Locate(old(index.entries)[rec.list], rec.key, rec.name);
        && DatedList(rec.list) == Drop(old(DatedList(rec.list)), j)
        && AnswersLost(old(DatedList(rec.list)), DatedList(rec.list), j, virtualChapterLow, virtualChapterHigh + 1)
    {
      hide DeltaIndexZone.Valid, DeltaIndexZone.DataValid, IsDated, At, Locate, WellFormed, AllDates, GoodDates, KeySum,
        Pow2, RemoveEntry, AllDated, NoneAhead, AllNamed, Distinct, View, AnswersLost, IsWithout;
      if !rec.isFound {
        return BadState;
      }
      index.Basics();
      ghost var list, ess, css, d0, valid := rec.list, index.entries, chapters, DatedList(rec.list), Valid();
      ghost var j := Locate(ess[list], rec.key, rec.name);
      AtKey(index.format, ess[list], rec.cur, j);
      AllDatedAt(ess, css, Modulus(), list);
      var cur;
      status, cur := index.Remove(rec.cur, j);
      chapters := chapters[list := css[list][..j] + css[list][j + 1..]];
      DropIsDated(d0, j, Modulus());
      AllDatedEdit(ess, css, index.entries, chapters, Modulus(), list);
      AllNamedAt(ess, list);
      DropView(index.format, d0, j);
      DropAnswers(index.format, d0, j, virtualChapterLow, virtualChapterHigh + 1);
      AllNamedEdit(ess, index.entries, list);
      if valid {
        AllDatesAt(ess, css, flushChapters, Modulus(), virtualChapterHigh, list);
        DropKeepsDates(d0, j, Modulus(), flushChapters[list], virtualChapterHigh);
        AllDatesEdit(ess, css, flushChapters, index.entries, chapters, flushChapters, Modulus(), virtualChapterHigh,
          list);
      }
    }

    /** Forget the entries of the reopened and later chapters, by renumbering them
        to be older than every chapter indexed. */
    method RenumberNewest(virtualChapter: nat)
      requires Based() && virtualChapterLow < virtualChapter <= virtualChapterHigh && virtualChapter >= Modulus()
      modifies this`flushChapters, this`chapters
      ensures WentBack(index.entries, old(chapters), old(flushChapters), index.entries, chapters, flushChapters,
        virtualChapterLow, virtualChapter, Modulus())
    {
      hide DeltaIndexZone.Valid, DeltaIndexZone.DataValid, Pow2, IsDated, AllNamed;
      var v := virtualChapter - Modulus();
      ghost var css, flushes := chapters, flushChapters;
      for k := 0 to |flushChapters|
        invariant |flushChapters| == |flushes|
        invariant forall i :: 0 <= i < |flushes| ==>
          flushChapters[i] == if i < k then BackFlush(flushes[i], virtualChapter, Modulus()) else flushes[i]
      {
        if v < flushChapters[k] {
          flushChapters := flushChapters[k := v];
        }
      }
      chapters := seq(|css|, k requires 0 <= k < |css| => Renumber(css[k], virtualChapter, Modulus()));
      forall k | 0 <= k < |css|
        ensures |index.entries[k]| == |css[k]|
      {
        AllDatedAt(index.entries, css, Modulus(), k);
      }
    }

    /** Forget the entries of the reopened and later chapters when the chapter number
        is too small to renumber them: walk all lists. */
    method FlushNewest(virtualChapter: nat)
      requires Based() && virtualChapterLow < virtualChapter <= virtualChapterHigh && virtualChapter < Modulus()
      modifies this`chapters, index, index.zone`lists, index.zone`flags,
        index.zone`numTransfers, index.zone`written, index.zone.memory
      ensures index.Valid()
      ensures WentBack(old(index.entries), old(chapters), flushChapters, index.entries, chapters, flushChapters,
        virtualChapterLow, virtualChapter, Modulus())
    {
      hide DeltaIndexZone.Valid, DeltaIndexZone.DataValid, IsDated, AllDated, At, Locate, Pow2, MinRelative, FlushFrom,
        WellFormed, IsModulus, AllNamed;
      ModulusIs();
      ghost var ess, css := index.entries, chapters;
      var modulus := Modulus();
      var r := NewestRange(virtualChapterLow, virtualChapter, modulus);
      for k := 0 to |flushChapters|
        invariant index.Valid() && |index.entries| == |chapters| == |ess| == |flushChapters|
        invariant forall i :: k <= i < |ess| ==> index.entries[i] == ess[i] && chapters[i] == css[i]
        invariant forall i :: 0 <= i < k ==>
          |ess[i]| == |css[i]| && DatedList(i) == FlushFrom(r, Dated(ess[i], css[i]), 0)
      {
        AllDatedAt(ess, css, modulus, k);
        var cur, start := GetEntry(k, 0, ZeroName(), r);
      }
    }

    /** Forget the entries of the chapters from the new open chapter on. */
    method RemoveNewest(virtualChapter: nat)
      requires Based() && virtualChapterLow < virtualChapter <= virtualChapterHigh
      modifies this`chapters, this`flushChapters, index, index.zone`lists, index.zone`flags,
        index.zone`numTransfers, index.zone`written, index.zone.memory
      ensures index.Valid() && AllDated(index.entries, chapters, Modulus()) && AllNamed(index.entries)
      ensures WentBack(old(index.entries), old(chapters), old(flushChapters), index.entries, chapters, flushChapters,
        virtualChapterLow, virtualChapter, Modulus())
      ensures virtualChapter >= Modulus() ==> NoneAhead(flushChapters, virtualChapter)
      ensures old(Windows()) ==>
        && AllDates(index.entries, chapters, flushChapters, Modulus(), virtualChapter)
        && AllMoved(old(index.entries), old(chapters), index.entries, chapters, virtualChapterLow, virtualChapterLow,
            virtualChapter)
        && AllAnswersMoved(old(index.entries), old(chapters), index.entries, chapters, virtualChapterLow,
            virtualChapter)
    {
      hide DeltaIndexZone.Valid, DeltaIndexZone.DataValid, AllDates, AllDated, AllMoved, AllAnswersMoved, WentBack,
        Pow2, WellFormed, IsModulus, AllNamed, NoneAhead;
      index.Basics();
      ModulusIs();
      ghost var ess, css, flushes, windows := index.entries, chapters, flushChapters, Windows();
      if virtualChapter >= Modulus() {
        RenumberNewest(virtualChapter);
      } else {
        FlushNewest(virtualChapter);
      }
      WentBackDated(index.format, ess, css, flushes, index.entries, chapters, flushChapters, virtualChapterLow,
        virtualChapter, Modulus());
      if windows {
        WentBackMoved(index.format, ess, css, flushes, index.entries, chapters, flushChapters, virtualChapterLow,
          virtualChapterHigh, virtualChapter, Modulus());
      }
    }

    /** Move the range of chapters being indexed to end with a new open chapter. */
    method MoveWindow(virtualChapter: nat)
      requires Based()
      modifies this`virtualChapterLow, this`virtualChapterHigh, this`chapters, this`flushChapters, index,
        index.zone`lists, index.zone`flags, index.zone`numTransfers, index.zone`written, index.zone.memory
      ensures virtualChapterHigh == virtualChapter
      ensures virtualChapterLow ==
        MovedLow(old(virtualChapterLow), old(virtualChapterHigh), virtualChapter, numChapters)
      ensures index.Valid() <==> old(Keeps(virtualChapter))
      ensures index.Valid() ==> Based()
      ensures virtualChapter > old(virtualChapterHigh) ==>
        index.entries == old(index.entries) && chapters == old(chapters) && flushChapters == old(flushChapters)
      ensures old(virtualChapterLow) < virtualChapter <= old(virtualChapterHigh) ==>
        WentBack(old(index.entries), old(chapters), old(flushChapters), index.entries, chapters, flushChapters,
          old(virtualChapterLow), virtualChapter, Modulus())
      ensures virtualChapter <= old(virtualChapterLow) ==>
        && |index.entries| == |chapters| == |old(index.entries)| && flushChapters == old(flushChapters)
        && forall k :: 0 <= k < |chapters| ==> index.entries[k] == [] && chapters[k] == []
      ensures old(Valid()) && index.Valid() ==>
        && Windows()
        && AllMoved(old(index.entries), old(chapters), index.entries, chapters, old(virtualChapterLow),
            virtualChapterLow, virtualChapter)
        && AllAnswersMoved(old(index.entries), old(chapters), index.entries, chapters, virtualChapterLow,
            virtualChapter)
        && if old(RenumbersOrAdvances(virtualChapter)) then NoneAhead(flushChapters, virtualChapter)
           else NoneAhead(flushChapters, virtualChapter) == NoneAhead(old(flushChapters), virtualChapter)
    {
      hide DeltaIndexZone.Valid, DeltaIndexZone.DataValid, AllDates, GoodDates, ListMoved, Pow2, AllDated, AllNamed,
        AllAnswersMoved, AnswersMoved, BackList;
      ghost var ess, css, low := index.entries, chapters, virtualChapterLow;
      ghost var valid := Valid();
      var newLow := if virtualChapter >= numChapters then virtualChapter - numChapters + 1 else 0;
      if virtualChapter <= virtualChapterLow {
        index.Clear();
        chapters := seq(|chapters|, _ => []);
        EmptyDates(index.entries, chapters, flushChapters, Modulus(), virtualChapter);
        EmptyDated(index.entries, chapters, Modulus());
        NoneNamed(index.entries);
        if valid {
          ClearedAll(ess, css, flushChapters, Modulus(), virtualChapterHigh, virtualChapterLow, virtualChapter);
          ClearedAnswers(ess, css, Modulus(), virtualChapter);
        }
        virtualChapterLow, virtualChapterHigh := virtualChapter, virtualChapter;
      } else if virtualChapter <= virtualChapterHigh {
        RemoveNewest(virtualChapter);
        virtualChapterHigh := virtualChapter;
      } else {
        if valid {
          AllDatesHigher(ess, css, flushChapters, Modulus(), virtualChapterHigh, virtualChapter);
          ForwardAll(ess, css, flushChapters, Modulus(), virtualChapterHigh, virtualChapterLow,
            MovedLow(virtualChapterLow, virtualChapterHigh, virtualChapter, numChapters), virtualChapter);
          ForwardAnswers(ess, css, flushChapters, Modulus(), virtualChapterHigh,
            MovedLow(virtualChapterLow, virtualChapterHigh, virtualChapter, numChapters), virtualChapter);
        }
        if newLow < virtualChapterLow {
          virtualChapterHigh := virtualChapter;
        } else if newLow <= virtualChapterHigh {
          virtualChapterLow, virtualChapterHigh := newLow, virtualChapter;
        } else {
          virtualChapterLow, virtualChapterHigh := virtualChapter, virtualChapter;
        }
      }
    }

    /** The new open chapter is later than the old one, or so far from the beginning that
        newer chapters can be renumbered. */
    ghost predicate RenumbersOrAdvances(virtualChapter: nat)
      reads this, index
    {
      virtualChapter > virtualChapterHigh || (virtualChapter > virtualChapterLow && virtualChapter >= Modulus())
    }

    /** Moving the open chapter keeps a save in progress good: unless all lists are
        emptied before it has written them. */
    ghost predicate Keeps(virtualChapter: nat)
      reads this, index, index.zone
    {
      virtualChapter > virtualChapterLow || !index.zone.writing || index.zone.numTransfers == 0
    }

    /** Make a chapter the open chapter. The zone then indexes the proper number of
        chapters ending with it, or fewer if it holds too much. What is live is what
        was, without the new open chapter, later ones and those no longer indexed, and
        every name has its answer among that. */
    method SetOpenChapter(virtualChapter: nat)
      requires Based()
      modifies this`virtualChapterLow, this`virtualChapterHigh, this`chapters, this`flushChapters, index,
        index.zone`lists, index.zone`flags, index.zone`numTransfers, index.zone`written, index.zone.memory
      ensures virtualChapterHigh == virtualChapter
      ensures index.Valid() <==> old(Keeps(virtualChapter))
      ensures var moved := MovedLow(old(virtualChapterLow), old(virtualChapterHigh), virtualChapter, numChapters);
        moved <= virtualChapter &&
          virtualChapterLow == EarlyLow(moved, virtualChapter, index.zone.Used(), maxZoneBits, chapterZoneBits)
      ensures index.Valid() ==> Based()
      ensures virtualChapter > old(virtualChapterHigh) ==>
        index.entries == old(index.entries) && chapters == old(chapters) && flushChapters == old(flushChapters)
      ensures old(virtualChapterLow) < virtualChapter <= old(virtualChapterHigh) ==>
        WentBack(old(index.entries), old(chapters), old(flushChapters), index.entries, chapters, flushChapters,
          old(virtualChapterLow), virtualChapter, Modulus())
      ensures virtualChapter <= old(virtualChapterLow) ==>
        && |index.entries| == |chapters| == |old(index.entries)| && flushChapters == old(flushChapters)
        && forall k :: 0 <= k < |chapters| ==> index.entries[k] == [] && chapters[k] == []
      ensures old(Valid()) && index.Valid() ==>
        && Windows()
        && AllMoved(old(index.entries), old(chapters), index.entries, chapters, old(virtualChapterLow),
            virtualChapterLow, virtualChapter)
        && AllAnswersMoved(old(index.entries), old(chapters), index.entries, chapters, virtualChapterLow,
            virtualChapter)
        && (old(RenumbersOrAdvances(virtualChapter)) ==> Valid())
        && (!old(RenumbersOrAdvances(virtualChapter)) ==> (Valid() <==> NoneAhead(old(flushChapters), virtualChapter)))
    {
      hide DeltaIndexZone.Valid, DeltaIndexZone.DataValid, Zone.Used, AllDates, AllDated, AllMoved, Pow2, NoneAhead,
        ExpireCount, MovedLow, AllNamed, AllAnswersMoved, WentBack;
      ghost var ess, css, low := index.entries, chapters, virtualChapterLow;
      MovedLowMeaning(virtualChapterLow, virtualChapterHigh, virtualChapter, numChapters, 0);
      MoveWindow(virtualChapter);
      ghost var moved := virtualChapterLow;
      MovedToStart(low, old(virtualChapterHigh), virtualChapter, numChapters);
      if virtualChapterLow < virtualChapterHigh {
        index.Basics();
        var used := index.zone.BitsUsed();
        if used > maxZoneBits {
          var expireCount := ExpireCount(used, maxZoneBits, chapterZoneBits);
          if expireCount == 1 {
            virtualChapterLow := virtualChapterLow + 1;
          } else if virtualChapterLow + expireCount < virtualChapterHigh {
            virtualChapterLow := virtualChapterLow + expireCount;
          } else {
            virtualChapterLow := virtualChapterHigh;
          }
        }
      }
      if old(Valid()) && index.Valid() {
        ExpiredAll(ess, css, index.entries, chapters, low, moved, virtualChapterLow, virtualChapter);
        LaterAnswers(ess, css, index.entries, chapters, moved, virtualChapterLow, virtualChapter);
      }
    }
  }
}
