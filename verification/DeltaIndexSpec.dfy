/** The pure part of the index operations: positions that may be remembered, the
    record counts, and the bits that an edit leaves. */
module DeltaIndexSpec {
  import opened Bits
  import opened Numbers
  import opened DeltaCode
  import opened DeltaLayout
  import opened DeltaEdit
  import opened DeltaSave
  import opened DeltaEntries
  import opened UdsStatus
  import opened DeltaEntryIO
  import opened DeltaSearch

  /** A remembered position is the boundary before an entry that is not a
      collision, or the end of the list, with the key that precedes it. */
  ghost predicate RememberedAt(f: Format, es: seq<Entry>, saveOffset: nat, saveKey: nat, i: nat)
    requires f.coding.incrKeys > 0
  {
    && i <= |es| && saveOffset == OffsetOf(f, es, i) && saveKey == KeySum(es[..i])
    && (i < |es| ==> es[i].name.None?)
  }

  ghost predicate Remembered(f: Format, es: seq<Entry>, saveOffset: nat, saveKey: nat)
    requires f.coding.incrKeys > 0
  {
    exists i :: 0 <= i <= |es| && RememberedAt(f, es, saveOffset, saveKey, i)
  }

  /** The bits of a list are the code of its entries, and its remembered position
      is sound. */
  ghost predicate GoodList(f: Format, es: seq<Entry>, bits: seq<bool>, l: DeltaList)
    requires f.coding.incrKeys > 0
  {
    WellFormed(f, es) && bits == ListCode(f, es) && Remembered(f, es, l.saveOffset, l.saveKey)
  }

  ghost predicate AllGood(f: Format, ess: seq<seq<Entry>>, bits: seq<seq<bool>>, ls: seq<DeltaList>)
    requires f.coding.incrKeys > 0
  {
    && |bits| == |ls| == |ess| + 2
    && forall k :: 0 <= k < |ess| ==> GoodList(f, ess[k], bits[k + 1], ls[k + 1])
  }

  lemma RememberedStart(f: Format, es: seq<Entry>)
    requires f.coding.incrKeys > 0 && WellFormed(f, es)
    ensures Remembered(f, es, 0, 0)
  {
    assert es[..0] == [];
    assert RememberedAt(f, es, 0, 0, 0);
  }

  /** A position survives every change behind it. */
  lemma RememberedKept(f: Format, es: seq<Entry>, after: seq<Entry>, j: nat, saveOffset: nat, saveKey: nat)
    requires IsFormat(f) && f.coding.incrKeys > 0 && Remembered(f, es, saveOffset, saveKey)
    requires j <= |es| && j <= |after| && es[..j] == after[..j] && saveOffset <= OffsetOf(f, es, j)
    requires j < |after| && j < |es| && es[j].name.None? ==> after[j].name.None?
    requires j == |es| < |after| ==> after[j].name.None?
    ensures Remembered(f, after, saveOffset, saveKey)
  {
    hide IsFormat, ListCode, KeySum;
    var i :| 0 <= i <= |es| && RememberedAt(f, es, saveOffset, saveKey, i);
    if i > j {
      OffsetsGrow(f, es, j, i);
      assert false;
    }
    assert es[..i] == es[..j][..i] == after[..j][..i] == after[..i];
    if i < j {
      assert es[i] == es[..j][i] == after[i];
    }
    assert RememberedAt(f, after, saveOffset, saveKey, i);
  }

  // ---------------------------------------------------------------- counts

  function Names(es: seq<Entry>): nat
  {
    if es == [] then 0 else Names(es[..|es| - 1]) + (if es[|es| - 1].name.Some? then 1 else 0)
  }

  lemma {:induction false} NamesConcat(a: seq<Entry>, b: seq<Entry>)
    ensures Names(a + b) == Names(a) + Names(b)
    decreases |b|
  {
    if b == [] {
      assert a + b == a;
    } else {
      assert (a + b)[..|a + b| - 1] == a + b[..|b| - 1];
      NamesConcat(a, b[..|b| - 1]);
    }
  }

  /** The records, and the collision records, of all lists. */
  function Records(ess: seq<seq<Entry>>): nat
  {
    if ess == [] then 0 else Records(ess[..|ess| - 1]) + |ess[|ess| - 1]|
  }

  function Collisions(ess: seq<seq<Entry>>): nat
  {
    if ess == [] then 0 else Collisions(ess[..|ess| - 1]) + Names(ess[|ess| - 1])
  }

  lemma {:induction false} CountsUpdate(ess: seq<seq<Entry>>, k: nat, es: seq<Entry>)
    requires k < |ess|
    ensures Records(ess[k := es]) == Records(ess) - |ess[k]| + |es|
    ensures Collisions(ess[k := es]) == Collisions(ess) - Names(ess[k]) + Names(es)
  {
    var n := |ess| - 1;
    if k < n {
      assert ess[k := es][..n] == ess[..n][k := es];
      CountsUpdate(ess[..n], k, es);
    } else {
      assert ess[k := es][..n] == ess[..n];
    }
  }

  lemma EditCounts(es: seq<Entry>, j: nat, was: seq<Entry>, now: seq<Entry>)
    requires j + |was| <= |es| && es[j..j + |was|] == was
    ensures Names(es[..j] + now + es[j + |was|..]) == Names(es) - Names(was) + Names(now)
  {
    assert es == es[..j] + was + es[j + |was|..];
    NamesConcat(es[..j], was);
    NamesConcat(es[..j] + was, es[j + |was|..]);
    NamesConcat(es[..j], now);
    NamesConcat(es[..j] + now, es[j + |was|..]);
  }

  lemma NamesOfOne(e: Entry)
    ensures Names([e]) == if e.name.Some? then 1 else 0
  {
    assert [e][..0] == [];
  }

  lemma NamesOfTwo(d: Entry, e: Entry)
    ensures Names([d, e]) == (if d.name.Some? then 1 else 0) + (if e.name.Some? then 1 else 0)
  {
    NamesOfOne(d);
    NamesOfOne(e);
    NamesConcat([d], [e]);
    assert [d] + [e] == [d, e];
  }

  // ------------------------------------------------------------------ bits

  /** The list after an edit of its entries from j on is well formed. */
  ghost predicate IsEdit(f: Format, es: seq<Entry>, j: nat, was: seq<Entry>, now: seq<Entry>, after: seq<Entry>)
  {
    && j + |was| <= |es| && es[j..j + |was|] == was
    && after == es[..j] + now + es[j + |was|..]
    && WellFormed(f, after)
  }

  function Inserted(e: Entry, next: Option<Entry>): seq<Entry> {
    if next.Some? then [e, next.value] else [e]
  }

  /** Encoding the new entries into the opened list gives the edited bits. */
  lemma InsertedCode(f: Format, before: seq<bool>, gap: seq<bool>, offset: nat, size: nat, e: Entry,
      next: Option<Entry>, k: nat)
    requires f.coding.incrKeys > 0 && offset + k <= |before| && Opened(before, gap, offset, size)
    requires size + k == |ListCode(f, Inserted(e, next))|
    ensures offset + size + k <= |gap|
    ensures next.None? ==> |EntryCode(f, e)| == size + k
    ensures next.Some? ==> |EntryCode(f, e)| + |EntryCode(f, next.value)| == size + k
    ensures
      var written := if next.Some? then Splice(gap, offset + |EntryCode(f, e)|, EntryCode(f, next.value)) else gap;
      Splice(written, offset, EntryCode(f, e)) ==
        before[..offset] + ListCode(f, Inserted(e, next)) + before[offset + k..]
  {
    hide ListCode, EntryCode, Splice;
    var w := ListCode(f, Inserted(e, next));
    OpenedFilled(before, gap, offset, size, w, k);
    if next.Some? {
      CodeOfTwo(f, e, next.value);
      SpliceBefore(gap, offset, EntryCode(f, e), EntryCode(f, next.value));
    } else {
      ListCodeOne(f, e);
    }
  }

  lemma EditValues(f: Format, es: seq<Entry>, j: nat, was: seq<Entry>, now: seq<Entry>, after: seq<Entry>)
    requires IsEdit(f, es, j, was, now, after)
    ensures forall i :: 0 <= i < |now| ==> now[i].value < Pow2(f.valueBits)
  {
    forall i | 0 <= i < |now|
      ensures now[i].value < Pow2(f.valueBits)
    {
      assert after[j + i] == now[i];
    }
  }

  /** An edit of one list leaves all lists good. */
  lemma GoodEdit(f: Format, ess: seq<seq<Entry>>, bits: seq<seq<bool>>, ls: seq<DeltaList>, bits': seq<seq<bool>>,
      ls': seq<DeltaList>, list: nat, after: seq<Entry>)
    requires f.coding.incrKeys > 0 && list < |ess| && |bits'| == |ls'| == |ess| + 2
    requires AllGood(f, ess, bits, ls)
    requires forall i :: 1 <= i <= |ess| && i != list + 1 ==> bits'[i] == bits[i]
    requires forall i :: 1 <= i <= |ess| && i != list + 1 ==>
      ls'[i].saveOffset == ls[i].saveOffset && ls'[i].saveKey == ls[i].saveKey
    requires GoodList(f, after, bits'[list + 1], ls'[list + 1])
    ensures AllGood(f, ess[list := after], bits', ls')
  {
    hide WellFormed, ListCode, Remembered;
  }

  lemma SnapshotEdit(writing: bool, bits: seq<seq<bool>>, after: seq<seq<bool>>, flags: seq<bool>, tag: char,
      firstList: nat, written: seq<SavedList>, image: seq<seq<bool>>)
    requires writing ==> Snapshot(bits, flags, tag, firstList, written, image)
    requires |after| == |bits| == |flags| + 2
    requires forall k {:trigger flags[k]} :: 0 <= k < |flags| && flags[k] ==> after[k + 1] == bits[k + 1]
    ensures writing ==> Snapshot(after, flags, tag, firstList, written, image)
  {
    if writing {
      SnapshotKept(bits, after, flags, tag, firstList, written, image);
    }
  }

  /** The places where putDeltaIndexEntry inserts. */
  ghost predicate PutAllowed(es: seq<Entry>, j: nat, key: nat, name: Option<Name>)
  {
    && j <= |es|
    && (name.Some? ==> j < |es| && key == KeyAt(es, j))
    && (name.None? ==> KeySum(es[..j]) <= key && (j < |es| ==> key < KeyAt(es, j)))
  }

  function PutEntry(es: seq<Entry>, j: nat, key: nat, value: nat, name: Option<Name>): seq<Entry>
    requires PutAllowed(es, j, key, name)
  {
    if name.Some? then InsertCollision(es, j, value, name.value) else InsertPlain(es, j, key, value)
  }

  lemma PutCounts(ess: seq<seq<Entry>>, list: nat, j: nat, key: nat, value: nat, name: Option<Name>)
    requires list < |ess| && PutAllowed(ess[list], j, key, name)
    ensures var after := ess[list := PutEntry(ess[list], j, key, value, name)];
      && Records(after) == Records(ess) + 1
      && Collisions(after) == Collisions(ess) + (if name.Some? then 1 else 0)
  {
    hide KeySum, Records, Collisions, Names;
    var es, now := ess[list], PutEntry(ess[list], j, key, value, name);
    CountsUpdate(ess, list, now);
    if name.Some? {
      EditCounts(es, j + 1, [], [Entry(0, value, name)]);
      NamesOfOne(Entry(0, value, name));
    } else {
      var e := Entry(key - KeySum(es[..j]), value, None);
      NamesOfOne(e);
      if j < |es| {
        EditCounts(es, j, [es[j]], [e, es[j].(delta := KeyAt(es, j) - key)]);
        NamesOfOne(es[j]);
        NamesOfTwo(e, es[j].(delta := KeyAt(es, j) - key));
      } else {
        EditCounts(es, j, [], [e]);
        assert es[..j] + [e] + es[j..] == es + [e];
      }
    }
    NoNames();
  }

  lemma NoNames()
    ensures Names([]) == 0
  {
  }

  lemma AtKeys(f: Format, es: seq<Entry>, cur: Cursor, j: nat)
    requires f.coding.incrKeys > 0 && At(f, es, cur, j)
    ensures j < |es| ==> cur.key == KeyAt(es, j) == KeySum(es[..j]) + cur.delta
    ensures j == |es| ==> cur.key == KeySum(es[..j])
    ensures j == 0 ==> KeySum(es[..j]) == 0
  {
    if j < |es| {
      KeyStep(es, j);
    } else {
      assert es[..j] == es;
    }
    assert es[..0] == [];
  }

  /** The bits that a put adds to a list. */
  ghost function PutBits(f: Format, es: seq<Entry>, j: nat, key: nat, value: nat, name: Option<Name>): int
    requires f.coding.incrKeys > 0 && PutAllowed(es, j, key, name)
  {
    |ListCode(f, PutEntry(es, j, key, value, name))| - |ListCode(f, es)|
  }

  /** The facts that inserting a collision needs. */
  lemma CollisionEdit(f: Format, es: seq<Entry>, cur: Cursor, j: nat, value: nat, name: Name, l: DeltaList)
    requires IsFormat(f) && f.coding.incrKeys > 0 && WellFormed(f, es) && At(f, es, cur, j) && j < |es| &&
      es[j].name.None?
    requires value < Pow2(f.valueBits) && Remembered(f, es, l.saveOffset, l.saveKey) && l.saveOffset <= cur.offset
    ensures var e, after := Entry(0, value, Some(name)), InsertCollision(es, j, value, name);
      && cur.offset + cur.entryBits == OffsetOf(f, es, j + 1)
      && SetDeltaEntryBits(f, 0) + COLLISION_BITS == |EntryCode(f, e)| == |ListCode(f, [e])| && |ListCode(f, [])| == 0
      && IsEdit(f, es, j + 1, [], [e], after)
      && Remembered(f, after, l.saveOffset, l.saveKey)
      && OffsetOf(f, after, j + 1) == OffsetOf(f, es, j + 1) && KeyAt(after, j + 1) == KeyAt(es, j)
  {
    hide IsFormat, EntryCode, ListCode, KeySum;
    var e, after := Entry(0, value, Some(name)), InsertCollision(es, j, value, name);
    EntryInList(f, es, j);
    SetDeltaEntryBitsExact(f, 0);
    EntrySize(f, e);
    ListCodeOne(f, e);
    EmptyCode(f);
    InsertCollisionView(f, es, j, value, name);
    assert es[j + 1..j + 1] == [];
    assert after == es[..j + 1] + [e] + es[j + 1 + 0..];
    RememberedKept(f, es, after, j, l.saveOffset, l.saveKey);
    assert after[..j + 1] == es[..j + 1];
    KeyStep(after, j + 1);
  }

  /** The facts that appending an entry needs. */
  lemma AppendEdit(f: Format, es: seq<Entry>, cur: Cursor, key: nat, value: nat, l: DeltaList)
    requires IsFormat(f) && f.coding.incrKeys > 0 && WellFormed(f, es) && At(f, es, cur, |es|)
    requires cur.key <= key <= f.maxKey && (|es| > 0 ==> cur.key < key) && cur.key == KeySum(es[..|es|])
    requires value < Pow2(f.valueBits) && Remembered(f, es, l.saveOffset, l.saveKey) && l.saveOffset <= cur.offset
    ensures var e, after := Entry(key - cur.key, value, None), InsertPlain(es, |es|, key, value);
      && SetDeltaEntryBits(f, e.delta) == |EntryCode(f, e)| == |ListCode(f, [e])| && |ListCode(f, [])| == 0
      && IsEdit(f, es, |es|, [], [e], after)
      && Remembered(f, after, l.saveOffset, l.saveKey)
      && OffsetOf(f, after, |es|) == OffsetOf(f, es, |es|) && KeyAt(after, |es|) == key && after[|es|] == e
  {
    hide IsFormat, EntryCode, ListCode, KeySum;
    var j := |es|;
    var e, after := Entry(key - cur.key, value, None), InsertPlain(es, j, key, value);
    SetDeltaEntryBitsExact(f, e.delta);
    EntrySize(f, e);
    ListCodeOne(f, e);
    EmptyCode(f);
    InsertPlainView(f, es, j, key, value);
    assert es[j..j] == [];
    assert after == es[..j] + [e] + es[j + 0..];
    RememberedKept(f, es, after, j, l.saveOffset, l.saveKey);
    assert after[..j] == es[..j];
    KeyStep(after, j);
  }

  /** The facts that inserting between two entries needs. */
  lemma MiddleEdit(f: Format, es: seq<Entry>, cur: Cursor, j: nat, key: nat, value: nat, l: DeltaList)
    requires IsFormat(f) && f.coding.incrKeys > 0 && WellFormed(f, es) && At(f, es, cur, j) && j < |es| &&
      es[j].name.None?
    requires KeySum(es[..j]) <= key < KeyAt(es, j) && (j > 0 ==> KeySum(es[..j]) < key) &&
      cur.key == KeySum(es[..j]) + cur.delta
    requires value < Pow2(f.valueBits) && Remembered(f, es, l.saveOffset, l.saveKey) && l.saveOffset <= cur.offset
    ensures var e, next := Entry(key - KeySum(es[..j]), value, None), es[j].(delta := cur.key - key);
      var after := InsertPlain(es, j, key, value);
      && SetDeltaEntryBits(f, e.delta) == |EntryCode(f, e)| && SetDeltaEntryBits(f, next.delta) == |EntryCode(f, next)|
      && cur.entryBits == |ListCode(f, [es[j]])| <= |EntryCode(f, e)| + |EntryCode(f, next)| == |ListCode(f, [e, next])|
      && IsEdit(f, es, j, [es[j]], [e, next], after)
      && Remembered(f, after, l.saveOffset, l.saveKey)
      && OffsetOf(f, after, j) == OffsetOf(f, es, j) && KeyAt(after, j) == key && after[j] == e
  {
    hide IsFormat, EntryCode, ListCode, KeySum, Encode, View, WellFormed, Pow2, Remembered, SetDeltaEntryBits;
    FormatBasics(f);
    var e, next, after := Entry(key - KeySum(es[..j]), value, None), es[j].(delta := cur.key - key), InsertPlain(es, j,
      key, value);
    KeyBelowMax(f, es, j);
    SetDeltaEntryBitsExact(f, e.delta);
    SetDeltaEntryBitsExact(f, next.delta);
    EntrySize(f, e);
    EntrySize(f, next);
    EntrySize(f, es[j]);
    SplitNeverShrinks(f.coding, e.delta, next.delta);
    ListCodeOne(f, es[j]);
    CodeOfTwo(f, e, next);
    InsertPlainView(f, es, j, key, value);
    assert after == es[..j] + [e, next] + es[j + 1..];
    RememberedKept(f, es, after, j, l.saveOffset, l.saveKey);
    assert after[..j] == es[..j];
    KeyStep(after, j);
  }

  /** Deleting a collision, or the last entry, deletes just its bits. */
  lemma DropEdit(f: Format, es: seq<Entry>, cur: Cursor, j: nat, bits: seq<bool>)
    requires IsFormat(f) && f.coding.incrKeys > 0 && WellFormed(f, es) && At(f, es, cur, j) && j < |es|
    requires es[j].name.Some? || j + 1 == |es|
    requires bits == ListCode(f, es)
    ensures cur.offset + cur.entryBits <= |bits|
    ensures ListCode(f, RemoveEntry(es, j)) == bits[..cur.offset] + bits[cur.offset + cur.entryBits..]
    ensures WellFormed(f, RemoveEntry(es, j))
  {
    hide IsFormat, EntryCode, ListCode, KeySum, View, WellFormed, Pow2;
    EditedCode(f, es, j, [es[j]], []);
    ListCodeOne(f, es[j]);
    EmptyCode(f);
    assert es[..j] + [] + es[j + 1..] == es[..j] + es[j + 1..];
    assert bits[..cur.offset] + [] == bits[..cur.offset];
    RemoveEntryView(f, es, j);
  }

  lemma DropCursor(f: Format, es: seq<Entry>, cur: Cursor, next: Cursor, j: nat)
    requires f.coding.incrKeys > 0 && WellFormed(f, es) && At(f, es, cur, j) && j < |es| && At(f, es, next, j + 1)
    requires es[j].name.Some? || j + 1 == |es|
    ensures cur.isCollision || next.key >= cur.delta
    ensures At(f, RemoveEntry(es, j),
      next.(offset := cur.offset, key := if cur.isCollision then next.key else next.key - cur.delta), j)
  {
    hide EntryCode, ListCode, KeySum;
    var after := RemoveEntry(es, j);
    assert after[..j] == es[..j];
    KeyStep(es, j);
    if j + 1 < |es| {
      KeyStep(es, j + 1);
      KeyStep(after, j);
    } else {
      assert after == es[..j] && es[..j + 1] == es;
    }
  }

  /** Merging a plain entry into the next. */
  lemma MergeEdit(f: Format, es: seq<Entry>, cur: Cursor, next: Cursor, j: nat, bits: seq<bool>)
    requires IsFormat(f) && f.coding.incrKeys > 0 && WellFormed(f, es) && At(f, es, cur, j) && At(f, es, next, j + 1)
    requires j + 1 < |es| && es[j].name.None? && bits == ListCode(f, es)
    ensures var e, after := Entry(cur.delta + next.delta, es[j + 1].value, None), RemoveEntry(es, j);
      && SetDeltaEntryBits(f, e.delta) == |EntryCode(f, e)| <= cur.entryBits + next.entryBits
      && e.value < Pow2(f.valueBits)
      && cur.offset + cur.entryBits + next.entryBits <= |bits|
      && var size := cur.entryBits + next.entryBits - |EntryCode(f, e)|;
      && ListCode(f, after) == Splice(bits[..cur.offset] + bits[cur.offset + size..], cur.offset, EntryCode(f, e))
      && WellFormed(f, after)
      && var entryBits := SetDeltaEntryBits(f, e.delta);
      && At(f, after, next.(isCollision := false, delta := e.delta, entryBits := entryBits, offset := cur.offset), j)
  {
    hide IsFormat, EntryCode, ListCode, KeySum, Encode, Pow2, Splice, View, SetDeltaEntryBits, WellFormed;
    var e := Entry(cur.delta + next.delta, es[j + 1].value, None);
    MergeSizes(f, es, j);
    assert es[j..j + 2] == [es[j], es[j + 1]];
    EditedCode(f, es, j, [es[j], es[j + 1]], [e]);
    CodeOfTwo(f, es[j], es[j + 1]);
    ListCodeOne(f, e);
    ClosedFilled(bits, cur.offset, cur.entryBits + next.entryBits - |EntryCode(f, e)|, EntryCode(f, e));
    RemoveEntryView(f, es, j);
    MergeCursor(f, es, cur, next, j);
  }

  lemma MergeCursor(f: Format, es: seq<Entry>, cur: Cursor, next: Cursor, j: nat)
    requires f.coding.incrKeys > 0 && At(f, es, cur, j) && At(f, es, next, j + 1) && j + 1 < |es| && es[j].name.None?
    requires var e := Entry(cur.delta + next.delta, es[j + 1].value, None);
      SetDeltaEntryBits(f, e.delta) == |EntryCode(f, e)|
    ensures var delta := cur.delta + next.delta;
      At(f, RemoveEntry(es, j),
        next.(isCollision := false, delta := delta, entryBits := SetDeltaEntryBits(f, delta), offset := cur.offset), j)
  {
    hide EntryCode, ListCode, KeySum, SetDeltaEntryBits;
    var after := RemoveEntry(es, j);
    assert after[..j] == es[..j];
    KeyStep(es, j);
    KeyStep(es, j + 1);
    KeyStep(after, j);
  }

  /** The merged entry is not larger than the two it replaces. */
  lemma MergeSizes(f: Format, es: seq<Entry>, j: nat)
    requires IsFormat(f) && f.coding.incrKeys > 0 && WellFormed(f, es) && j + 1 < |es| && es[j].name.None?
    ensures var e := Entry(es[j].delta + es[j + 1].delta, es[j + 1].value, None);
      && SetDeltaEntryBits(f, e.delta) == |EntryCode(f, e)| <= |EntryCode(f, es[j])| + |EntryCode(f, es[j + 1])|
      && e.value < Pow2(f.valueBits)
  {
    hide IsFormat, EntryCode, KeySum, Encode, Pow2, SetDeltaEntryBits;
    FormatBasics(f);
    var e := Entry(es[j].delta + es[j + 1].delta, es[j + 1].value, None);
    KeyStep(es, j);
    KeyStep(es, j + 1);
    KeyBelowMax(f, es, j + 1);
    SetDeltaEntryBitsExact(f, e.delta);
    EntrySize(f, e);
    EntrySize(f, es[j]);
    EntrySize(f, es[j + 1]);
    SplitNeverShrinks(f.coding, es[j].delta, es[j + 1].delta);
  }

  lemma AtOffset(f: Format, es: seq<Entry>, cur: Cursor, j: nat)
    requires f.coding.incrKeys > 0 && At(f, es, cur, j)
    ensures j <= |es| && cur.offset == OffsetOf(f, es, j) && cur.atEnd == (j == |es|)
  {
  }

  lemma ValueCounts(ess: seq<seq<Entry>>, list: nat, j: nat, value: nat)
    requires list < |ess| && j < |ess[list]|
    ensures var after := ess[list := ess[list][j := ess[list][j].(value := value)]];
      Records(after) == Records(ess) && Collisions(after) == Collisions(ess)
  {
    hide Records, Collisions, Names;
    var es := ess[list];
    var after := es[j := es[j].(value := value)];
    CountsUpdate(ess, list, after);
    EditCounts(es, j, [es[j]], [after[j]]);
    NamesOfOne(es[j]);
    NamesOfOne(after[j]);
    assert es[..j] + [after[j]] + es[j + 1..] == after;
  }

  lemma RemoveCounts(ess: seq<seq<Entry>>, list: nat, j: nat)
    requires list < |ess| && j < |ess[list]|
    ensures var es := ess[list]; var after := ess[list := RemoveEntry(es, j)];
      && Records(after) == Records(ess) - 1
      && Collisions(after) == Collisions(ess)
           - (if es[j].name.Some? || (j + 1 < |es| && es[j + 1].name.Some?) then 1 else 0)
  {
    hide Records, Collisions, Names;
    var es := ess[list];
    CountsUpdate(ess, list, RemoveEntry(es, j));
    NamesOfOne(es[j]);
    NoNames();
    if es[j].name.Some? || j == |es| - 1 {
      EditCounts(es, j, [es[j]], []);
      assert es[..j] + [] + es[j + 1..] == es[..j] + es[j + 1..];
    } else {
      var e := Entry(es[j].delta + es[j + 1].delta, es[j + 1].value, None);
      assert es[j..j + 2] == [es[j], es[j + 1]];
      EditCounts(es, j, [es[j], es[j + 1]], [e]);
      NamesOfTwo(es[j], es[j + 1]);
      NamesOfOne(e);
    }
  }

  /** After a removal the remembered position is still one, or is reset. */
  lemma RemovedPosition(f: Format, es: seq<Entry>, j: nat, was: DeltaList, now: DeltaList, offset: nat)
    requires IsFormat(f) && f.coding.incrKeys > 0 && WellFormed(f, es) && j < |es| && offset == OffsetOf(f, es, j)
    requires Remembered(f, es, was.saveOffset, was.saveKey)
    requires if offset < was.saveOffset then now.saveOffset == 0 && now.saveKey == 0
             else now.saveOffset == was.saveOffset && now.saveKey == was.saveKey
    ensures Remembered(f, RemoveEntry(es, j), now.saveOffset, now.saveKey)
  {
    hide IsFormat, ListCode, KeySum, Remembered;
    var after := RemoveEntry(es, j);
    RemoveEntryView(f, es, j);
    if offset < was.saveOffset {
      RememberedStart(f, after);
    } else {
      assert after[..j] == es[..j];
      RememberedKept(f, es, after, j, was.saveOffset, was.saveKey);
    }
  }

  /** Changing a value changes the bits of the value only. */
  lemma ValueEdit(f: Format, es: seq<Entry>, j: nat, value: nat, cur: Cursor, l: DeltaList)
    requires IsFormat(f) && f.coding.incrKeys > 0 && WellFormed(f, es) && j < |es| && At(f, es, cur, j)
    requires value < Pow2(f.valueBits) && Remembered(f, es, l.saveOffset, l.saveKey)
    ensures var after := es[j := es[j].(value := value)];
      && cur.offset + f.valueBits <= |ListCode(f, es)|
      && ListCode(f, after) == Splice(ListCode(f, es), cur.offset, ToBits(value, f.valueBits))
      && WellFormed(f, after) && At(f, after, cur, j)
      && Remembered(f, after, l.saveOffset, l.saveKey)
  {
    hide IsFormat, EntryCode, ListCode, KeySum, Encode, ToBits, Splice, Remembered;
    var after := es[j := es[j].(value := value)];
    EditedCode(f, es, j, [es[j]], [after[j]]);
    assert es[..j] + [after[j]] + es[j + 1..] == after;
    ListCodeOne(f, es[j]);
    ListCodeOne(f, after[j]);
    EntrySize(f, es[j]);
    EntrySize(f, after[j]);
    ValueCode(f, es[j], value);
    EntryInList(f, es, j);
    Parts(ListCode(f, es[..j]), EntryCode(f, es[j]), ListCode(f, es[j + 1..]));
    SpliceCode(ListCode(f, es), cur.offset, EntryCode(f, es[j]), ToBits(value, f.valueBits));
    forall i | 0 <= i <= |es|
      ensures KeySum(after[..i]) == KeySum(es[..i]) && OffsetOf(f, after, i) == OffsetOf(f, es, i)
    {
      SameKeySum(es, after, j, i);
      SameOffset(f, es, after, j, i);
    }
    assert es[..|es|] == es && after[..|es|] == after;
    ValuePosition(f, es, after, l);
  }

  lemma ValueCode(f: Format, e: Entry, value: nat)
    requires f.coding.incrKeys > 0
    ensures f.valueBits <= |EntryCode(f, e)|
    ensures EntryCode(f, e.(value := value)) == Splice(EntryCode(f, e), 0, ToBits(value, f.valueBits))
  {
    hide ToBits, Encode;
  }

  lemma SpliceCode<T>(s: seq<T>, offset: nat, code: seq<T>, w: seq<T>)
    requires offset + |code| <= |s| && s[offset..offset + |code|] == code && |w| <= |code|
    ensures s[..offset] + Splice(code, 0, w) + s[offset + |code|..] == Splice(s, offset, w)
  {
    SpliceInside(s, offset, |code|, 0, w);
  }

  lemma {:induction false} SameKeySum(es: seq<Entry>, after: seq<Entry>, j: nat, i: nat)
    requires j < |es| == |after| && after == es[j := after[j]] && after[j].delta == es[j].delta && i <= |es|
    ensures KeySum(after[..i]) == KeySum(es[..i])
  {
    if i > 0 {
      SameKeySum(es, after, j, i - 1);
      KeyStep(es, i - 1);
      KeyStep(after, i - 1);
    } else {
      assert after[..0] == es[..0];
    }
  }

  lemma {:induction false} SameOffset(f: Format, es: seq<Entry>, after: seq<Entry>, j: nat, i: nat)
    requires f.coding.incrKeys > 0 && j < |es| == |after| && after == es[j := after[j]] && i <= |es|
    requires |EntryCode(f, after[j])| == |EntryCode(f, es[j])|
    ensures OffsetOf(f, after, i) == OffsetOf(f, es, i)
  {
    hide EntryCode, ListCode;
    if i > 0 {
      SameOffset(f, es, after, j, i - 1);
      EntryInList(f, es, i - 1);
      EntryInList(f, after, i - 1);
    } else {
      assert after[..0] == es[..0];
    }
  }

  lemma ValuePosition(f: Format, es: seq<Entry>, after: seq<Entry>, l: DeltaList)
    requires f.coding.incrKeys > 0 && |after| == |es| && Remembered(f, es, l.saveOffset, l.saveKey)
    requires forall i :: 0 <= i <= |es| ==>
      KeySum(after[..i]) == KeySum(es[..i]) && OffsetOf(f, after, i) == OffsetOf(f, es, i)
    requires forall i :: 0 <= i < |es| ==> after[i].name == es[i].name
    ensures Remembered(f, after, l.saveOffset, l.saveKey)
  {
    hide ListCode, KeySum;
    var i :| 0 <= i <= |es| && RememberedAt(f, es, l.saveOffset, l.saveKey, i);
    assert RememberedAt(f, after, l.saveOffset, l.saveKey, i);
  }

  lemma KeyBelowMax(f: Format, es: seq<Entry>, j: nat)
    requires WellFormed(f, es) && j < |es|
    ensures KeyAt(es, j) <= f.maxKey && es[j].delta <= f.maxKey
  {
    assert es[..|es|] == es;
    KeysInOrder(es, j + 1, |es|);
    KeyStep(es, j);
  }

  lemma StoredValue(f: Format, m: seq<Byte>, l: DeltaList, es: seq<Entry>, j: nat)
    requires Stored(f, m, l, es) && f.coding.incrKeys > 0 && j < |es|
    ensures var at := l.start + OffsetOf(f, es, j);
      f.valueBits <= MAX_FIELD_BITS && at / 8 + 4 <= |m| && Val(GetField(m, at, f.valueBits)) == es[j].value
  {
    hide IsFormat, ListBits, ListCode, Val, GetField;
    ValueInMemory(f, m, l, es, j);
  }

  lemma EmptyCode(f: Format)
    requires f.coding.incrKeys > 0
    ensures ListCode(f, []) == []
  {
  }

  /** The bits of some lists. */
  ghost function Codes(f: Format, ess: seq<seq<Entry>>): (codes: seq<seq<bool>>)
    requires f.coding.incrKeys > 0
    ensures |codes| == |ess|
  {
    seq(|ess|, k requires 0 <= k < |ess| => ListCode(f, ess[k]))
  }

  lemma AllGoodParts(f: Format, ess: seq<seq<Entry>>, bits: seq<seq<bool>>, ls: seq<DeltaList>, k: nat)
    requires f.coding.incrKeys > 0 && AllGood(f, ess, bits, ls) && k < |ess|
    ensures WellFormed(f, ess[k]) && bits[k + 1] == ListCode(f, ess[k])
    ensures Remembered(f, ess[k], ls[k + 1].saveOffset, ls[k + 1].saveKey)
    ensures GoodList(f, ess[k], bits[k + 1], ls[k + 1])
  {
  }

  /** Filling an opened gap, and the k bits that follow it, with a new code. */
  lemma OpenedFilled(b0: seq<bool>, b1: seq<bool>, offset: nat, size: nat, w: seq<bool>, k: nat)
    requires offset + k <= |b0| && Opened(b0, b1, offset, size) && |w| == size + k
    ensures offset + |w| <= |b1| && Splice(b1, offset, w) == b0[..offset] + w + b0[offset + k..]
  {
    assert b1[offset + |w|..] == b1[offset + size..][k..] == b0[offset..][k..] == b0[offset + k..];
  }

  /** Filling the place of a deletion. */
  lemma ClosedFilled(b0: seq<bool>, offset: nat, size: nat, w: seq<bool>)
    requires offset + size + |w| <= |b0|
    ensures Splice(b0[..offset] + b0[offset + size..], offset, w) == b0[..offset] + w + b0[offset + size + |w|..]
  {
    var b1 := b0[..offset] + b0[offset + size..];
    assert b1[..offset] == b0[..offset];
    assert b1[offset + |w|..] == b0[offset + size + |w|..];
  }

  /** The code of a list with some of its entries replaced. */
  lemma EditedCode(f: Format, es: seq<Entry>, j: nat, was: seq<Entry>, now: seq<Entry>)
    requires f.coding.incrKeys > 0 && j + |was| <= |es| && es[j..j + |was|] == was
    ensures var code, from := ListCode(f, es), OffsetOf(f, es, j);
      && from + |ListCode(f, was)| <= |code|
      && ListCode(f, es[..j] + now + es[j + |was|..]) ==
          code[..from] + ListCode(f, now) + code[from + |ListCode(f, was)|..]
      && OffsetOf(f, es[..j] + now + es[j + |was|..], j) == from
  {
    hide ListCode;
    var tail := es[j + |was|..];
    assert es == es[..j] + was + tail;
    ListCodeConcat(f, es[..j], was);
    ListCodeConcat(f, es[..j] + was, tail);
    ListCodeConcat(f, es[..j], now);
    ListCodeConcat(f, es[..j] + now, tail);
    assert (es[..j] + now + tail)[..j] == es[..j];
    Replaced(ListCode(f, es[..j]), ListCode(f, was), ListCode(f, now), ListCode(f, tail));
  }

  lemma Replaced<T>(a: seq<T>, b: seq<T>, c: seq<T>, d: seq<T>)
    ensures var s := a + b + d; a + c + d == s[..|a|] + c + s[|a| + |b|..]
  {
    Parts(a, b, d);
  }

  lemma CodeOfTwo(f: Format, d: Entry, e: Entry)
    requires f.coding.incrKeys > 0
    ensures ListCode(f, [d, e]) == EntryCode(f, d) + EntryCode(f, e)
  {
    hide ListCode, EntryCode;
    assert [d, e] == [d] + [e];
    ListCodeConcat(f, [d], [e]);
    ListCodeOne(f, d);
    ListCodeOne(f, e);
  }
}
