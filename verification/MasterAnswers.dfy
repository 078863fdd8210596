/** What a lookup in the master index answers for a name, and that forgetting the entries
    of old chapters changes the answer for no name (uds/masterIndex005.c). */
module MasterAnswers {
  import opened Numbers
  import opened DeltaCode
  import opened DeltaEntries
  import opened ChapterNumbers
  import opened LazyFlush
  import opened UdsStatus

  // ----- The answer for a name -----

  /** Record k has the key, and its chapter is one of those from low up to high. */
  ghost predicate IsAmong(v: seq<Record>, cs: seq<nat>, k: nat, key: nat, low: nat, high: nat) {
    k < |v| == |cs| && v[k].key == key && low <= cs[k] < high
  }

  /** Record i answers for a name: it is the record of that name or, if there is none,
      the first of all records with its key. */
  ghost predicate IsPick(v: seq<Record>, cs: seq<nat>, i: nat, key: nat, name: Name, low: nat, high: nat) {
    && IsAmong(v, cs, i, key, low, high)
    && (v[i].name == Some(name) ||
          forall k: nat :: IsAmong(v, cs, k, key, low, high) ==> i <= k && v[k].name != Some(name))
  }

  /** The chapter answered for a name, if only the chapters from low up to high count. */
  ghost function Pick(d: Dated, key: nat, name: Name, low: nat, high: nat): Option<nat>
    requires |d.entries| == |d.chapters|
  {
    if exists i: nat :: IsPick(View(d.entries), d.chapters, i, key, name, low, high) then
      var i: nat :| IsPick(View(d.entries), d.chapters, i, key, name, low, high);
      Some(d.chapters[i])
    else None
  }

  /** Only one record answers. */
  lemma PickIs(d: Dated, i: nat, key: nat, name: Name, low: nat, high: nat)
    requires |d.entries| == |d.chapters| && Distinct(View(d.entries))
    requires IsPick(View(d.entries), d.chapters, i, key, name, low, high)
    ensures Pick(d, key, name, low, high) == Some(d.chapters[i])
  {
    hide View, IsPick, Distinct;
    var v, cs := View(d.entries), d.chapters;
    forall j: nat | IsPick(v, cs, j, key, name, low, high)
      ensures j == i
    {
      OnePick(v, cs, i, j, key, name, low, high);
    }
  }

  lemma OnePick(v: seq<Record>, cs: seq<nat>, i: nat, j: nat, key: nat, name: Name, low: nat, high: nat)
    requires Distinct(v) && IsPick(v, cs, i, key, name, low, high) && IsPick(v, cs, j, key, name, low, high)
    ensures i == j
  {
    assert IsAmong(v, cs, j, key, low, high) && IsAmong(v, cs, i, key, low, high);
  }

  /** Some record answers, if there is any with the key. */
  lemma {:induction false} PickExists(v: seq<Record>, cs: seq<nat>, k: nat, key: nat, name: Name, low: nat, high: nat)
    returns (i: nat)
    requires IsAmong(v, cs, k, key, low, high)
    ensures IsPick(v, cs, i, key, name, low, high)
    decreases k
  {
    if n: nat :| IsAmong(v, cs, n, key, low, high) && v[n].name == Some(name) {
      i := n;
    } else if n: nat :| n < k && IsAmong(v, cs, n, key, low, high) {
      i := PickExists(v, cs, n, key, name, low, high);
    } else {
      i := k;
    }
  }

  /** There is no answer if and only if no record has the key. */
  lemma NoPick(d: Dated, key: nat, name: Name, low: nat, high: nat)
    requires |d.entries| == |d.chapters|
    ensures Pick(d, key, name, low, high).None? <==>
      forall k: nat :: !IsAmong(View(d.entries), d.chapters, k, key, low, high)
  {
    hide View;
    if k: nat :| IsAmong(View(d.entries), d.chapters, k, key, low, high) {
      var i := PickExists(View(d.entries), d.chapters, k, key, name, low, high);
    }
  }

  /** Other chapters, but the same ones that count. */
  lemma SamePick(es: seq<Entry>, cs: seq<nat>, cs': seq<nat>, key: nat, name: Name, low: nat, high: nat, low': nat,
      high': nat)
    requires |es| == |cs| == |cs'| && Distinct(View(es))
    requires forall k :: 0 <= k < |cs| ==>
      (low <= cs[k] < high <==> low' <= cs'[k] < high') && (low <= cs[k] < high ==> cs'[k] == cs[k])
    ensures Pick(Dated(es, cs'), key, name, low', high') == Pick(Dated(es, cs), key, name, low, high)
  {
    hide View, Distinct, Pick;
    var v := View(es);
    assert forall k: nat :: IsAmong(v, cs, k, key, low, high) <==> IsAmong(v, cs', k, key, low', high');
    NoPick(Dated(es, cs), key, name, low, high);
    NoPick(Dated(es, cs'), key, name, low', high');
    if k: nat :| IsAmong(v, cs, k, key, low, high) {
      var i := PickExists(v, cs, k, key, name, low, high);
      assert IsPick(v, cs', i, key, name, low', high');
      PickIs(Dated(es, cs), i, key, name, low, high);
      PickIs(Dated(es, cs'), i, key, name, low', high');
    }
  }

  /** If all records count, the answer is what a search of the list finds. */
  lemma FoundIsPick(f: Format, d: Dated, key: nat, name: Name, low: nat, high: nat)
    requires WellFormed(f, d.entries) && |d.entries| == |d.chapters| && Distinct(View(d.entries))
    requires forall k :: 0 <= k < |d.chapters| ==> low <= d.chapters[k] < high
    ensures var j := Locate(d.entries, key, name);
      Pick(d, key, name, low, high) ==
        if j < |d.entries| && KeyAt(d.entries, j) == key then Some(d.chapters[j]) else None
  {
    hide Locate, WellFormed, Distinct, Pick, KeySum;
    var v, cs, j := View(d.entries), d.chapters, Locate(d.entries, key, name);
    NoPick(d, key, name, low, high);
    LocateMeaning(f, d.entries, key, name);
    if j < |v| && v[j].key == key {
      assert IsAmong(v, cs, j, key, low, high);
      if v[j].name != Some(name) {
        PlainIsFirst(f, d.entries, j);
      }
      assert IsPick(v, cs, j, key, name, low, high);
      PickIs(d, j, key, name, low, high);
    }
  }

  /** A plain record is the first with its key. */
  lemma PlainIsFirst(f: Format, es: seq<Entry>, j: nat)
    requires WellFormed(f, es) && j < |es| && View(es)[j].name.None?
    ensures forall k :: 0 <= k < |es| && View(es)[k].key == View(es)[j].key ==> j <= k
  {
    hide WellFormed, View;
    ViewInOrder(f, es);
    forall k | 0 <= k < j
      ensures View(es)[k].key != View(es)[j].key
    {
      assert View(es)[k].key <= View(es)[j - 1].key;
    }
  }

  // ----- Removing records -----

  /** Where a record is after record j has been removed. */
  function Shifted(i: nat, j: nat): nat {
    if i < j then i else if i > 0 then i - 1 else 0
  }

  /** The records after record j has been removed: the next one may have lost its name. */
  ghost predicate IsWithout(v: seq<Record>, w: seq<Record>, j: nat) {
    && j < |v| == |w| + 1
    && (forall i :: 0 <= i < |v| && i != j ==>
          && w[Shifted(i, j)].key == v[i].key
          && (w[Shifted(i, j)].name == v[i].name || (w[Shifted(i, j)].name.None? && IsPromoted(v, i, j))))
  }

  /** Record i becomes the plain record of its key when record j is removed. */
  ghost predicate IsPromoted(v: seq<Record>, i: nat, j: nat)
    requires j < |v|
  {
    i == j + 1 < |v| && v[j].name.None? && v[i].name.Some? && v[i].key == v[j].key
  }

  lemma RemovedIsWithout(f: Format, es: seq<Entry>, j: nat)
    requires WellFormed(f, es) && j < |es|
    ensures IsWithout(View(es), View(RemoveEntry(es, j)), j) && WellFormed(f, RemoveEntry(es, j))
  {
    hide *;
    RemoveEntryView(f, es, j);
    if j + 1 < |es| {
      CollisionHasKey(f, es, j + 1);
    }
    WithoutIs(View(es), View(RemoveEntry(es, j)), j);
  }

  lemma CollisionHasKey(f: Format, es: seq<Entry>, j: nat)
    requires WellFormed(f, es) && 0 < j < |es|
    ensures View(es)[j].name.Some? ==> View(es)[j].key == View(es)[j - 1].key
  {
    hide View, WellFormed;
    ViewInOrder(f, es);
  }

  lemma WithoutIs(v: seq<Record>, w: seq<Record>, j: nat)
    requires j < |v| && (j + 1 < |v| && v[j + 1].name.Some? ==> v[j + 1].key == v[j].key)
    requires w == if v[j].name.None? && j + 1 < |v| && v[j + 1].name.Some?
      then v[..j] + [v[j + 1].(name := None)] + v[j + 2..] else v[..j] + v[j + 1..]
    ensures IsWithout(v, w, j)
  {
  }

  lemma StaysDistinct(v: seq<Record>, w: seq<Record>, j: nat)
    requires IsWithout(v, w, j) && Distinct(v)
    requires v[j].name.None? ==> forall k :: 0 <= k < |v| && v[k].key == v[j].key ==> j <= k
    ensures Distinct(w)
  {
    forall a, b | 0 <= a < b < |w| && w[a].key == w[b].key
      ensures w[a].name != w[b].name
    {
      var a', b' := if a < j then a else a + 1, if b < j then b else b + 1;
      assert Shifted(a', j) == a && Shifted(b', j) == b;
      assert v[a'].key == v[b'].key && v[a'].name != v[b'].name;
    }
  }

  /** A record that answers still does when another one is removed. */
  lemma PickStays(v: seq<Record>, w: seq<Record>, cs: seq<nat>, cs': seq<nat>, i: nat, j: nat, key: nat, name: Name,
      low: nat, high: nat)
    requires IsWithout(v, w, j) && Distinct(v) && |cs| == |v| && cs' == cs[..j] + cs[j + 1..]
    requires v[j].name.None? ==> forall k :: 0 <= k < |v| && v[k].key == v[j].key ==> j <= k
    requires IsPick(v, cs, i, key, name, low, high) && i != j
    ensures IsPick(w, cs', Shifted(i, j), key, name, low, high) && cs'[Shifted(i, j)] == cs[i]
  {
    var i' := Shifted(i, j);
    assert IsAmong(v, cs, i, key, low, high);
    assert IsAmong(w, cs', i', key, low, high);
    if w[i'].name != Some(name) {
      forall k': nat | IsAmong(w, cs', k', key, low, high)
        ensures i' <= k' && w[k'].name != Some(name)
      {
        var k := if k' < j then k' else k' + 1;
        assert Shifted(k, j) == k';
        assert IsAmong(v, cs, k, key, low, high);
      }
    }
  }

  lemma DropView(f: Format, d: Dated, j: nat)
    requires WellFormed(f, d.entries) && j < |d.entries| == |d.chapters| && Distinct(View(d.entries))
    ensures var v, w := View(d.entries), View(Drop(d, j).entries);
      && IsWithout(v, w, j) && Distinct(w) && WellFormed(f, Drop(d, j).entries) && |w| == |v| - 1
      && (v[j].name.None? ==> forall k :: 0 <= k < |v| && v[k].key == v[j].key ==> j <= k)
  {
    hide View, WellFormed, RemoveEntry, Distinct, IsWithout;
    RemovedIsWithout(f, d.entries, j);
    if View(d.entries)[j].name.None? {
      PlainIsFirst(f, d.entries, j);
    }
    StaysDistinct(View(d.entries), View(Drop(d, j).entries), j);
    assert |View(Drop(d, j).entries)| == |View(d.entries)| - 1 by {
      RemoveEntryView(f, d.entries, j);
    }
  }

  /** Removing a record that does not answer for a name does not change its answer. */
  lemma DropPick(f: Format, d: Dated, j: nat, key: nat, name: Name, low: nat, high: nat)
    requires WellFormed(f, d.entries) && j < |d.entries| == |d.chapters| && Distinct(View(d.entries))
    requires !IsPick(View(d.entries), d.chapters, j, key, name, low, high)
    ensures Pick(Drop(d, j), key, name, low, high) == Pick(d, key, name, low, high)
  {
    hide View, WellFormed, RemoveEntry, Distinct, IsWithout, IsAmong, IsPick, Pick;
    var e := Drop(d, j);
    var v, w := View(d.entries), View(e.entries);
    DropView(f, d, j);
    NoPick(d, key, name, low, high);
    NoPick(e, key, name, low, high);
    if k: nat :| IsAmong(v, d.chapters, k, key, low, high) {
      var i := PickExists(v, d.chapters, k, key, name, low, high);
      PickStays(v, w, d.chapters, e.chapters, i, j, key, name, low, high);
      PickIs(d, i, key, name, low, high);
      PickIs(e, Shifted(i, j), key, name, low, high);
    } else if k: nat :| IsAmong(w, e.chapters, k, key, low, high) {
      AmongBefore(v, w, d.chapters, e.chapters, j, k, key, low, high);
    }
  }

  lemma AmongBefore(v: seq<Record>, w: seq<Record>, cs: seq<nat>, cs': seq<nat>, j: nat, k: nat, key: nat, low: nat,
      high: nat)
    requires IsWithout(v, w, j) && |cs| == |v| && cs' == cs[..j] + cs[j + 1..] && IsAmong(w, cs', k, key, low, high)
    ensures IsAmong(v, cs, if k < j then k else k + 1, key, low, high)
  {
    assert Shifted(if k < j then k else k + 1, j) == k;
  }

  /** A flush changes no answer among chapters that it keeps. */
  lemma {:induction false} FlushPick(f: Format, r: Range, d: Dated, j: nat, key: nat, name: Name, low: nat, high: nat)
    requires r.modulus > 0 && j <= |d.entries| == |d.chapters| && WellFormed(f, d.entries) && Distinct(View(d.entries))
    requires forall i :: 0 <= i < |d.entries| && Flushed(r, d.entries[i].value) ==> !(low <= d.chapters[i] < high)
    ensures Pick(FlushFrom(r, d, j), key, name, low, high) == Pick(d, key, name, low, high)
    decreases |d.entries| - j
  {
    hide WellFormed, Distinct, Pick, Flushed, View;
    if j < |d.entries| {
      if Flushed(r, d.entries[j].value) {
        DropView(f, d, j);
        DropPick(f, d, j, key, name, low, high);
        FlushPick(f, r, Drop(d, j), j, key, name, low, high);
      } else {
        FlushPick(f, r, d, j + 1, key, name, low, high);
      }
    }
  }

  /** Names stay distinct. */
  lemma {:induction false} FlushKeepsNames(f: Format, r: Range, d: Dated, j: nat)
    requires r.modulus > 0 && j <= |d.entries| == |d.chapters| && WellFormed(f, d.entries) && Distinct(View(d.entries))
    ensures Distinct(View(FlushFrom(r, d, j).entries))
    decreases |d.entries| - j
  {
    hide WellFormed, Distinct, Flushed, View, RemoveEntry;
    if j < |d.entries| {
      if Flushed(r, d.entries[j].value) {
        DropView(f, d, j);
        FlushKeepsNames(f, r, Drop(d, j), j);
      } else {
        FlushKeepsNames(f, r, d, j + 1);
      }
    }
  }

  // ----- Adding records -----

  /** Record r of a chapter has been added at p. */
  ghost predicate IsAdded(d: Dated, e: Dated, p: nat, r: Record, chapter: nat) {
    && |d.entries| == |d.chapters| && |e.entries| == |e.chapters| && p <= |d.entries|
    && View(e.entries) == View(d.entries)[..p] + [r] + View(d.entries)[p..]
    && e.chapters == d.chapters[..p] + [chapter] + d.chapters[p..]
  }

  /** The new record answers for its name. */
  lemma AddedPick(d: Dated, e: Dated, p: nat, r: Record, chapter: nat, name: Name, low: nat, high: nat)
    requires IsAdded(d, e, p, r, chapter) && Distinct(View(e.entries)) && low <= chapter < high
    requires r.name == Some(name) || forall k :: 0 <= k < |d.entries| ==> View(d.entries)[k].key != r.key
    ensures Pick(e, r.key, name, low, high) == Some(chapter)
  {
    hide View, Distinct, Pick;
    var v, w := View(d.entries), View(e.entries);
    assert w[p] == r && e.chapters[p] == chapter;
    if r.name != Some(name) {
      forall k | 0 <= k < |w| && k != p
        ensures w[k].key != r.key
      {
        assert w[k] == v[if k < p then k else k - 1];
      }
    }
    assert IsPick(w, e.chapters, p, r.key, name, low, high);
    PickIs(e, p, r.key, name, low, high);
  }

  /** Other answers stay. */
  lemma OtherPick(d: Dated, e: Dated, p: nat, r: Record, chapter: nat, key: nat, name: Name, low: nat, high: nat)
    requires IsAdded(d, e, p, r, chapter) && Distinct(View(d.entries)) && Distinct(View(e.entries))
    requires r.key == key ==>
      r.name.Some? && r.name != Some(name) && p > 0 && IsAmong(View(d.entries), d.chapters, p - 1, key, low, high)
    requires Pick(d, key, name, low, high).Some?
    ensures Pick(e, key, name, low, high) == Pick(d, key, name, low, high)
  {
    hide View, Distinct;
    var v, w := View(d.entries), View(e.entries);
    var i: nat :| IsPick(v, d.chapters, i, key, name, low, high);
    var i' := if i < p then i else i + 1;
    assert IsAmong(v, d.chapters, i, key, low, high);
    assert w[i'] == v[i] && e.chapters[i'] == d.chapters[i];
    if v[i].name != Some(name) {
      forall k': nat | IsAmong(w, e.chapters, k', key, low, high)
        ensures i' <= k' && w[k'].name != Some(name)
      {
        if k' != p {
          var k := if k' < p then k' else k' - 1;
          assert w[k'] == v[k] && e.chapters[k'] == d.chapters[k];
          assert IsAmong(v, d.chapters, k, key, low, high);
        } else {
          assert w[p] == r;
        }
      }
    }
    assert IsPick(w, e.chapters, i', key, name, low, high);
    PickIs(d, i, key, name, low, high);
    PickIs(e, i', key, name, low, high);
  }

  // ----- All answers of a list -----

  /** Every name has the same answer in both lists. */
  ghost predicate SameAnswers(d: Dated, e: Dated, low: nat, high: nat) {
    && |d.entries| == |d.chapters| && |e.entries| == |e.chapters|
    && forall key: nat, name: Name :: Pick(e, key, name, low, high) == Pick(d, key, name, low, high)
  }

  /** Every name has the answer that it had among the chapters before v, whatever chapter
      from low on is the first that counts. */
  ghost predicate AnswersMoved(d: Dated, e: Dated, low: nat, v: nat) {
    && |d.entries| == |d.chapters| && |e.entries| == |e.chapters|
    && forall key: nat, name: Name, first: nat :: low <= first ==>
      Pick(e, key, name, first, v + 1) == Pick(d, key, name, first, v)
  }

  /** The name has a new answer, and every other one that has an answer keeps it. */
  ghost predicate AnswerGained(d: Dated, e: Dated, key: nat, name: Name, chapter: nat, low: nat, high: nat) {
    && |d.entries| == |d.chapters| && |e.entries| == |e.chapters|
    && Pick(e, key, name, low, high) == Some(chapter)
    && forall key': nat, name': Name :: (key', name') != (key, name) && Pick(d, key', name', low, high).Some? ==>
      Pick(e, key', name', low, high) == Pick(d, key', name', low, high)
  }

  /** The names whose answer is record j have a new one, and no other answer changes. */
  ghost predicate AnswerSet(d: Dated, e: Dated, j: nat, chapter: nat, low: nat, high: nat) {
    && |d.entries| == |d.chapters| && |e.entries| == |e.chapters|
    && forall key: nat, name: Name ::
      Pick(e, key, name, low, high) ==
        (if IsPick(View(d.entries), d.chapters, j, key, name, low, high) then Some(chapter)
         else Pick(d, key, name, low, high))
  }

  /** No answer changes except those that were record j. */
  ghost predicate AnswersLost(d: Dated, e: Dated, j: nat, low: nat, high: nat) {
    && |d.entries| == |d.chapters| && |e.entries| == |e.chapters|
    && forall key: nat, name: Name :: !IsPick(View(d.entries), d.chapters, j, key, name, low, high) ==>
      Pick(e, key, name, low, high) == Pick(d, key, name, low, high)
  }

  lemma DropAnswers(f: Format, d: Dated, j: nat, low: nat, high: nat)
    requires WellFormed(f, d.entries) && j < |d.entries| == |d.chapters| && Distinct(View(d.entries))
    ensures AnswersLost(d, Drop(d, j), j, low, high)
  {
    hide WellFormed, Distinct, Pick, View, IsPick;
    forall key: nat, name: Name | !IsPick(View(d.entries), d.chapters, j, key, name, low, high)
      ensures Pick(Drop(d, j), key, name, low, high) == Pick(d, key, name, low, high)
    {
      DropPick(f, d, j, key, name, low, high);
    }
  }
}
