/** The meaning of a delta list: a sequence of entries in key order
    (uds/deltaIndex.c and uds/deltaIndex.h). */
module DeltaEntries {
  import opened Bits
  import opened UdsStatus
  import opened Numbers
  import opened DeltaCode

  const COLLISION_BYTES := 16
  const COLLISION_BITS := 128

  /** A full chunk name. */
  type Name = n: seq<Byte> | |n| == COLLISION_BYTES
    witness seq(COLLISION_BYTES, _ => [false, false, false, false, false, false, false, false])

  /** The parameters of the lists of an index: how deltas are coded, the width of
      a value, and the largest key in use. */
  datatype Format = Format(coding: Coding, valueBits: nat, maxKey: nat)

  /** The formats the entry routines handle: the predicted size of a code must be
      exact for every delta, and an entry must fit its 16-bit size field. */
  ghost predicate IsFormat(f: Format)
  {
    && IsCoding(f.coding) && f.coding.minKeys <= f.coding.incrKeys
    && f.valueBits <= MAX_FIELD_BITS
    && f.maxKey < UINT32_RANGE - f.coding.incrKeys
    && f.valueBits + f.coding.minBits + f.maxKey / f.coding.incrKeys + 1 + COLLISION_BITS <= 65535
  }

  lemma FormatBasics(f: Format)
    requires IsFormat(f)
    ensures f.coding.incrKeys > 0 && IsCoding(f.coding) && f.valueBits <= MAX_FIELD_BITS &&
      4 <= f.coding.minBits <= MAX_FIELD_BITS
  {
  }

  /** An entry as it is stored: the distance from the key before it, the value,
      and the full name if the entry is a collision. */
  datatype Entry = Entry(delta: nat, value: nat, name: Option<Name>)

  function NameBits(name: Option<Name>): (b: seq<bool>)
    ensures |b| == if name.Some? then COLLISION_BITS else 0
  {
    if name.Some? then Stream(name.value) else []
  }

  function EntryCode(f: Format, e: Entry): (b: seq<bool>)
    requires f.coding.incrKeys > 0
  {
    ToBits(e.value, f.valueBits) + Encode(f.coding, e.delta) + NameBits(e.name)
  }

  function ListCode(f: Format, es: seq<Entry>): (b: seq<bool>)
    requires f.coding.incrKeys > 0
  {
    if es == [] then [] else EntryCode(f, es[0]) + ListCode(f, es[1..])
  }

  lemma {:induction false} ListCodeConcat(f: Format, a: seq<Entry>, b: seq<Entry>)
    requires f.coding.incrKeys > 0
    ensures ListCode(f, a + b) == ListCode(f, a) + ListCode(f, b)
  {
    if a == [] {
      assert a + b == b;
    } else {
      assert (a + b)[1..] == a[1..] + b;
      ListCodeConcat(f, a[1..], b);
    }
  }

  lemma ListCodeOne(f: Format, e: Entry)
    requires f.coding.incrKeys > 0
    ensures ListCode(f, [e]) == EntryCode(f, e)
  {
    assert [e][1..] == [];
  }

  /** The key of the last of a sequence of entries: the sum of their deltas. */
  function KeySum(es: seq<Entry>): nat
  {
    if es == [] then 0 else KeySum(es[..|es| - 1]) + es[|es| - 1].delta
  }

  function KeyAt(es: seq<Entry>, i: nat): nat
    requires i < |es|
  {
    KeySum(es[..i + 1])
  }

  lemma KeyStep(es: seq<Entry>, i: nat)
    requires i < |es|
    ensures KeyAt(es, i) == KeySum(es[..i]) + es[i].delta
  {
    assert es[..i + 1][..i] == es[..i];
  }

  lemma {:induction false} KeySumConcat(a: seq<Entry>, b: seq<Entry>)
    ensures KeySum(a + b) == KeySum(a) + KeySum(b)
    decreases |b|
  {
    if b == [] {
      assert a + b == a;
    } else {
      assert (a + b)[..|a + b| - 1] == a + b[..|b| - 1];
      KeySumConcat(a, b[..|b| - 1]);
    }
  }

  lemma KeysInOrder(es: seq<Entry>, i: nat, j: nat)
    requires i <= j <= |es|
    ensures KeySum(es[..i]) <= KeySum(es[..j])
  {
    assert es[..j] == es[..i] + es[i..j];
    KeySumConcat(es[..i], es[i..j]);
  }

  /** A well formed list: a collision is exactly an entry with delta zero that is
      not the first, so that each group of equal keys is one plain entry followed
      by named collisions. */
  ghost predicate WellFormed(f: Format, es: seq<Entry>)
  {
    && KeySum(es) <= f.maxKey
    && forall i :: 0 <= i < |es| ==>
         && es[i].value < Pow2(f.valueBits)
         && (es[i].name.Some? <==> i > 0 && es[i].delta == 0)
  }

  // ------------------------------------------------ the abstract contents

  /** A record of the index. A plain record has no name: it stands for every name
      with its key that has no collision record of its own. */
  datatype Record = Record(key: nat, value: nat, name: Option<Name>)

  /** The records of a list. */
  function View(es: seq<Entry>): (v: seq<Record>)
    ensures |v| == |es|
  {
    seq(|es|, i requires 0 <= i < |es| => Record(KeyAt(es, i), es[i].value, es[i].name))
  }

  /** The records are in key order, and a record is a collision exactly when it
      has the key of the one before it. */
  lemma ViewInOrder(f: Format, es: seq<Entry>)
    requires WellFormed(f, es)
    ensures forall i, j :: 0 <= i < j < |es| ==> View(es)[i].key <= View(es)[j].key
    ensures forall i :: 0 <= i < |es| ==>
      (View(es)[i].name.Some? <==> i > 0 && View(es)[i].key == View(es)[i - 1].key)
  {
    forall i, j | 0 <= i < j < |es|
      ensures View(es)[i].key <= View(es)[j].key
    {
      KeysInOrder(es, i + 1, j + 1);
    }
    forall i | 0 <= i < |es|
      ensures View(es)[i].name.Some? <==> i > 0 && View(es)[i].key == View(es)[i - 1].key
    {
      KeyStep(es, i);
    }
  }

  /** The lists of equal length with equal keys, values and names are equal. */
  lemma {:induction false} ViewIsInjective(a: seq<Entry>, b: seq<Entry>)
    requires View(a) == View(b)
    ensures a == b
  {
    forall i | 0 <= i < |a|
      ensures a[i] == b[i]
    {
      assert View(a)[i] == View(b)[i];
      KeyStep(a, i);
      KeyStep(b, i);
      if i > 0 {
        assert View(a)[i - 1] == View(b)[i - 1];
      } else {
        assert a[..0] == [] && b[..0] == [];
      }
    }
  }

  // ---------------------------------------------------------------- edits

  /** A new plain entry before entry j, whose delta is shortened. */
  function InsertPlain(es: seq<Entry>, j: nat, key: nat, value: nat): seq<Entry>
    requires j <= |es| && KeySum(es[..j]) <= key
    requires j < |es| ==> key <= KeyAt(es, j)
  {
    var e := Entry(key - KeySum(es[..j]), value, None);
    if j == |es| then es + [e]
    else es[..j] + [e, es[j].(delta := KeyAt(es, j) - key)] + es[j + 1..]
  }

  /** A new collision after the plain entry j. */
  function InsertCollision(es: seq<Entry>, j: nat, value: nat, name: Name): seq<Entry>
    requires j < |es|
  {
    es[..j + 1] + [Entry(0, value, Some(name))] + es[j + 1..]
  }

  /** Entry j removed: the next entry takes over its delta, and if that was a
      collision it becomes a plain entry. */
  function RemoveEntry(es: seq<Entry>, j: nat): seq<Entry>
    requires j < |es|
  {
    if es[j].name.Some? || j == |es| - 1 then es[..j] + es[j + 1..]
    else es[..j] + [Entry(es[j].delta + es[j + 1].delta, es[j + 1].value, None)] + es[j + 2..]
  }

  lemma SameKeys(a: seq<Entry>, i: nat, b: seq<Entry>, j: nat, k: nat)
    requires i + k <= |a| && j + k <= |b| && a[i..] == b[j..] && KeySum(a[..i]) == KeySum(b[..j])
    ensures KeySum(a[..i + k]) == KeySum(b[..j + k])
  {
    hide KeySum;
    assert a[..i + k] == a[..i] + a[i..][..k];
    assert b[..j + k] == b[..j] + b[j..][..k];
    KeySumConcat(a[..i], a[i..][..k]);
    KeySumConcat(b[..j], b[j..][..k]);
  }

  lemma ViewAt(es: seq<Entry>, i: nat)
    requires i < |es|
    ensures View(es)[i] == Record(KeyAt(es, i), es[i].value, es[i].name)
  {
  }

  /** Two lists with the same tail of entries after points with the same key have
      the same tail of records. */
  lemma ViewTail(a: seq<Entry>, i: nat, b: seq<Entry>, j: nat)
    requires i <= |a| && j <= |b| && a[i..] == b[j..] && KeySum(a[..i]) == KeySum(b[..j])
    ensures View(a)[i..] == View(b)[j..]
    ensures KeySum(a) == KeySum(b)
  {
    hide KeySum, View;
    SameKeys(a, i, b, j, |a| - i);
    assert a[..i + (|a| - i)] == a && b[..j + (|b| - j)] == b;
    var v, w := View(a)[i..], View(b)[j..];
    forall k | 0 <= k < |v|
      ensures v[k] == w[k]
    {
      SameRecord(a, i, b, j, k);
    }
  }

  lemma SameRecord(a: seq<Entry>, i: nat, b: seq<Entry>, j: nat, k: nat)
    requires i + k < |a| && j <= |b| && a[i..] == b[j..] && KeySum(a[..i]) == KeySum(b[..j])
    ensures j + k < |b| && View(a)[i + k] == View(b)[j + k]
  {
    hide KeySum, View;
    assert |a[i..]| == |b[j..]|;
    assert a[i + k] == a[i..][k] && b[j + k] == b[j..][k];
    SameKeys(a, i, b, j, k + 1);
    assert a[..i + (k + 1)] == a[..(i + k) + 1] && b[..j + (k + 1)] == b[..(j + k) + 1];
    ViewAt(a, i + k);
    ViewAt(b, j + k);
  }

  lemma ViewHead(a: seq<Entry>, b: seq<Entry>, j: nat)
    requires j <= |a| && j <= |b| && a[..j] == b[..j]
    ensures View(a)[..j] == View(b)[..j] && KeySum(a[..j]) == KeySum(b[..j])
  {
    hide KeySum, View;
    forall k | 0 <= k < j
      ensures View(a)[k] == View(b)[k]
    {
      assert a[..k + 1] == a[..j][..k + 1] && b[..k + 1] == b[..j][..k + 1];
      assert a[k] == a[..j][k] && b[k] == b[..j][k];
      ViewAt(a, k);
      ViewAt(b, k);
    }
  }

  /** Replacing entries by others that fit their places keeps a list well formed. */
  lemma StaysWellFormed(f: Format, es: seq<Entry>, after: seq<Entry>, j: nat, k: nat, middle: seq<Entry>)
    requires WellFormed(f, es) && j + k <= |es| && after == es[..j] + middle + es[j + k..] && KeySum(after) <= f.maxKey
    requires j + k == |es| || (j + k > 0 && j + |middle| > 0)
    requires forall m :: 0 <= m < |middle| ==>
      middle[m].value < Pow2(f.valueBits) && (middle[m].name.Some? <==> j + m > 0 && middle[m].delta == 0)
    ensures WellFormed(f, after)
  {
    hide KeySum, Pow2;
    forall i | 0 <= i < |after|
      ensures after[i].value < Pow2(f.valueBits) && (after[i].name.Some? <==> i > 0 && after[i].delta == 0)
    {
      if i < j {
        assert after[i] == es[i];
      } else if i < j + |middle| {
        assert after[i] == middle[i - j];
      } else {
        assert after[i] == es[i - j - |middle| + j + k];
      }
    }
  }

  /** Inserting a plain entry adds exactly one record, and the list stays well
      formed as long as no entry has that key yet. */
  lemma InsertPlainView(f: Format, es: seq<Entry>, j: nat, key: nat, value: nat)
    requires WellFormed(f, es) && j <= |es|
    requires key <= f.maxKey && value < Pow2(f.valueBits)
    requires if j == 0 then true else KeySum(es[..j]) < key
    requires j < |es| ==> key < KeyAt(es, j)
    ensures KeySum(es[..j]) <= key
    ensures WellFormed(f, InsertPlain(es, j, key, value))
    ensures View(InsertPlain(es, j, key, value)) == View(es)[..j] + [Record(key, value, None)] + View(es)[j..]
  {
    hide KeySum, View, WellFormed, Pow2;
    NonePrecede(es);
    if j < |es| {
      InsertMiddleView(f, es, j, key, value);
    } else {
      assert es[..j] == es;
      AppendPlainView(f, es, key, value);
      assert View(es)[..j] == View(es) && View(es)[j..] == [];
    }
  }

  lemma NonePrecede(es: seq<Entry>)
    ensures KeySum(es[..0]) == 0
  {
  }

  lemma AppendPlainView(f: Format, es: seq<Entry>, key: nat, value: nat)
    requires WellFormed(f, es) && key <= f.maxKey && value < Pow2(f.valueBits)
    requires KeySum(es) <= key && (|es| > 0 ==> KeySum(es) < key)
    ensures var after := es + [Entry(key - KeySum(es), value, None)];
      WellFormed(f, after) && View(after) == View(es) + [Record(key, value, None)]
  {
    hide KeySum, View, WellFormed, Pow2;
    var n, after := |es|, es + [Entry(key - KeySum(es), value, None)];
    assert after[..n] == es;
    KeyStep(after, n);
    AppendedView(es, after);
    ViewAt(after, n);
    assert after == es[..n] + [after[n]] + es[n..];
    StaysWellFormed(f, es, after, n, 0, [after[n]]);
  }

  lemma InsertMiddleView(f: Format, es: seq<Entry>, j: nat, key: nat, value: nat)
    requires WellFormed(f, es) && j < |es| && value < Pow2(f.valueBits)
    requires KeySum(es[..j]) <= key < KeyAt(es, j) && (j > 0 ==> KeySum(es[..j]) < key)
    ensures WellFormed(f, InsertPlain(es, j, key, value))
    ensures View(InsertPlain(es, j, key, value)) == View(es)[..j] + [Record(key, value, None)] + View(es)[j..]
  {
    hide KeySum, Pow2, View, WellFormed;
    var after := InsertPlain(es, j, key, value);
    assert after[..j] == es[..j];
    ViewHead(es, after, j);
    KeyStep(after, j);
    KeyStep(after, j + 1);
    KeyStep(es, j);
    assert after[..j + 2] == after[..(j + 1) + 1];
    assert after[j + 2..] == es[j + 1..];
    ViewTail(after, j + 2, es, j + 1);
    ViewAt(es, j);
    ViewAt(after, j);
    ViewAt(after, j + 1);
    InsertedView(View(es), View(after), j);
    PlainFits(f, es, j);
    StaysWellFormed(f, es, after, j, 1,
      [Entry(key - KeySum(es[..j]), value, None), es[j].(delta := KeyAt(es, j) - key)]);
  }

  /** The entry after a plain one that is inserted is plain itself. */
  lemma PlainFits(f: Format, es: seq<Entry>, j: nat)
    requires WellFormed(f, es) && j < |es| && KeySum(es[..j]) < KeyAt(es, j)
    ensures es[j].name.None? && es[j].value < Pow2(f.valueBits) && KeySum(es) <= f.maxKey
  {
    hide KeySum, Pow2;
    KeyStep(es, j);
  }

  lemma AppendedView(es: seq<Entry>, after: seq<Entry>)
    requires |after| == |es| + 1 && after[..|es|] == es
    ensures KeySum(after) == KeyAt(after, |es|)
    ensures View(after) == View(es) + [View(after)[|es|]]
  {
    hide KeySum, View;
    assert es[..|es|] == es;
    ViewHead(es, after, |es|);
    assert View(es)[..|es|] == View(es);
    assert after[..|es| + 1] == after;
    assert View(after) == View(after)[..|es|] + [View(after)[|es|]];
  }

  lemma InsertedView(v: seq<Record>, w: seq<Record>, j: nat)
    requires j < |v| && |w| == |v| + 1
    requires w[..j] == v[..j] && w[j + 1] == v[j] && w[j + 2..] == v[j + 1..]
    ensures w == v[..j] + [w[j]] + v[j..]
  {
    assert v[j..] == [v[j]] + v[j + 1..];
    assert w == w[..j] + [w[j], w[j + 1]] + w[j + 2..];
  }

  /** Inserting a collision adds exactly one record, right after the plain one. */
  lemma InsertCollisionView(f: Format, es: seq<Entry>, j: nat, value: nat, name: Name)
    requires WellFormed(f, es) && j < |es| && value < Pow2(f.valueBits)
    ensures WellFormed(f, InsertCollision(es, j, value, name))
    ensures View(InsertCollision(es, j, value, name))
         == View(es)[..j + 1] + [Record(KeyAt(es, j), value, Some(name))] + View(es)[j + 1..]
  {
    hide KeySum, Pow2, View;
    var after := InsertCollision(es, j, value, name);
    assert after[..j + 1] == es[..j + 1];
    ViewHead(es, after, j + 1);
    KeyStep(after, j + 1);
    assert after[j + 2..] == es[j + 1..];
    ViewTail(after, j + 2, es, j + 1);
    ViewAt(after, j + 1);
    assert View(after) == View(after)[..j + 1] + [View(after)[j + 1]] + View(after)[j + 2..];
    WellFormedSum(f, es);
    StaysWellFormed(f, es, after, j + 1, 0, [Entry(0, value, Some(name))]);
  }

  lemma WellFormedSum(f: Format, es: seq<Entry>)
    requires WellFormed(f, es)
    ensures KeySum(es) <= f.maxKey
  {
  }

  /** Removing an entry removes exactly its record, except that a collision that
      followed a removed plain record loses its name: it is now the plain one. */
  lemma RemoveEntryView(f: Format, es: seq<Entry>, j: nat)
    requires WellFormed(f, es) && j < |es|
    ensures WellFormed(f, RemoveEntry(es, j))
    ensures var v := View(es);
      View(RemoveEntry(es, j)) ==
        if v[j].name.None? && j + 1 < |v| && v[j + 1].name.Some?
        then v[..j] + [v[j + 1].(name := None)] + v[j + 2..]
        else v[..j] + v[j + 1..]
  {
    hide KeySum, View, WellFormed;
    ViewAt(es, j);
    if j < |es| - 1 {
      ViewAt(es, j + 1);
    }
    if es[j].name.Some? || j == |es| - 1 {
      CutView(f, es, j);
    } else {
      MergedView(f, es, j);
      var v := View(es);
      assert v[j + 1..] == [v[j + 1]] + v[j + 2..];
      if v[j + 1].name.None? {
        assert v[..j] + [v[j + 1]] + v[j + 2..] == v[..j] + v[j + 1..];
      }
    }
  }

  /** Removing the last entry, or a collision, which has delta zero. */
  lemma CutView(f: Format, es: seq<Entry>, j: nat)
    requires WellFormed(f, es) && j < |es| && (es[j].name.Some? || j == |es| - 1)
    ensures WellFormed(f, es[..j] + es[j + 1..])
    ensures View(es[..j] + es[j + 1..]) == View(es)[..j] + View(es)[j + 1..]
  {
    hide KeySum, View, Pow2;
    var after := es[..j] + es[j + 1..];
    assert after[..j] == es[..j];
    ViewHead(es, after, j);
    KeyStep(es, j);
    if j == |es| - 1 {
      assert after == es[..j];
      assert es[..|es|] == es;
      KeysInOrder(es, j, |es|);
    } else {
      assert after[j..] == es[j + 1..];
      ViewTail(after, j, es, j + 1);
    }
    assert View(after) == View(after)[..j] + View(after)[j..];
    assert after == es[..j] + [] + es[j + 1..];
    StaysWellFormed(f, es, after, j, 1, []);
  }

  /** Removing a plain entry merges it into the next. */
  lemma MergedView(f: Format, es: seq<Entry>, j: nat)
    requires WellFormed(f, es) && j < |es| - 1 && es[j].name.None?
    ensures WellFormed(f, RemoveEntry(es, j))
    ensures View(RemoveEntry(es, j)) == View(es)[..j] + [View(es)[j + 1].(name := None)] + View(es)[j + 2..]
  {
    hide KeySum, View, Pow2;
    var after := RemoveEntry(es, j);
    assert after[..j] == es[..j];
    ViewHead(es, after, j);
    KeyStep(es, j);
    KeyStep(es, j + 1);
    KeyStep(after, j);
    assert after[j + 1..] == es[j + 2..];
    ViewTail(after, j + 1, es, j + 2);
    ViewAt(after, j);
    ViewAt(es, j + 1);
    assert View(after) == View(after)[..j] + [View(after)[j]] + View(after)[j + 1..];
    StaysWellFormed(f, es, after, j, 2, [after[j]]);
  }

  // ------------------------------------------------------------- positions

  /** The bit offset of entry j within its list. */
  function OffsetOf(f: Format, es: seq<Entry>, j: nat): nat
    requires f.coding.incrKeys > 0 && j <= |es|
  {
    |ListCode(f, es[..j])|
  }

  /** The parts of the code of a list around one entry. */
  lemma EntryInList(f: Format, es: seq<Entry>, j: nat)
    requires f.coding.incrKeys > 0 && j < |es|
    ensures ListCode(f, es) == ListCode(f, es[..j]) + EntryCode(f, es[j]) + ListCode(f, es[j + 1..])
    ensures OffsetOf(f, es, j + 1) == OffsetOf(f, es, j) + |EntryCode(f, es[j])|
  {
    hide ListCode, EntryCode;
    assert es == es[..j + 1] + es[j + 1..];
    assert es[..j + 1] == es[..j] + [es[j]];
    ListCodeConcat(f, es[..j + 1], es[j + 1..]);
    ListCodeConcat(f, es[..j], [es[j]]);
    ListCodeOne(f, es[j]);
  }

  lemma OffsetsGrow(f: Format, es: seq<Entry>, i: nat, j: nat)
    requires IsFormat(f) && i <= j <= |es|
    ensures OffsetOf(f, es, i) <= OffsetOf(f, es, j)
    ensures i < j ==> OffsetOf(f, es, i) < OffsetOf(f, es, j)
    decreases j - i
  {
    hide IsFormat, OffsetOf;
    if i < j {
      OffsetStep(f, es, j - 1);
      OffsetsGrow(f, es, i, j - 1);
    }
  }

  lemma OffsetStep(f: Format, es: seq<Entry>, j: nat)
    requires IsFormat(f) && j < |es|
    ensures f.coding.incrKeys > 0 && OffsetOf(f, es, j) < OffsetOf(f, es, j + 1)
  {
    FormatBasics(f);
    hide ListCode, EntryCode, IsFormat, OffsetOf, Encode;
    EntryInList(f, es, j);
    EntrySize(f, es[j]);
  }

  /** The size of an entry in bits. */
  lemma EntrySize(f: Format, e: Entry)
    requires f.coding.incrKeys > 0
    ensures |EntryCode(f, e)| ==
      f.valueBits + |Encode(f.coding, e.delta)| + (if e.name.Some? then COLLISION_BITS else 0)
    ensures |EntryCode(f, e)| >= f.coding.minBits
  {
    EncodedSize(f.coding, e.delta);
  }

  /** The 16-bit size that setDelta stores in an entry. */
  function SetDeltaEntryBits(f: Format, delta: nat): nat
    requires f.coding.incrKeys > 0
  {
    (f.valueBits + SetDeltaKeyBits(f.coding, delta)) % 65536
  }

  /** It is the size of a plain entry, and leaves room to add a name. */
  lemma SetDeltaEntryBitsExact(f: Format, delta: nat)
    requires IsFormat(f) && delta <= f.maxKey
    ensures SetDeltaEntryBits(f, delta) == f.valueBits + |Encode(f.coding, delta)|
    ensures SetDeltaEntryBits(f, delta) + COLLISION_BITS <= 65535
  {
    hide Encode;
    SetDeltaIsExact(f.coding, delta);
    EncodedSize(f.coding, delta);
    ExtraBitsGrow(f.coding, delta, f.maxKey);
  }

  lemma ExtraBitsGrow(c: Coding, a: nat, b: nat)
    requires c.incrKeys > 0 && a <= b
    ensures ExtraBits(c, a) <= b / c.incrKeys + 1
  {
    if a >= c.minKeys {
      DivGrows(a - c.minKeys, b, c.incrKeys);
    }
  }

  lemma DivGrows(x: nat, y: nat, n: nat)
    requires n > 0 && x <= y
    ensures x / n <= y / n
  {
    DivMod(x, n);
    DivMod(y, n);
    MulNext(y / n, n);
    MulCancel(x / n, y / n + 1, n);
  }

  // --------------------------------------------------------------- search

  /** The first entry from a given one on whose key is not below the key sought. */
  function Seek(es: seq<Entry>, key: nat, from: nat): (j: nat)
    requires from <= |es|
    ensures from <= j <= |es|
    decreases |es| - from
  {
    if from == |es| || key <= KeyAt(es, from) then from else Seek(es, key, from + 1)
  }

  /** The collision with the given name in the group of entry j, if there is one,
      and otherwise entry j itself. */
  function SeekName(es: seq<Entry>, j: nat, name: Name, from: nat): (k: nat)
    requires j < |es| && j < from <= |es|
    ensures k == j || from <= k < |es|
    decreases |es| - from
  {
    if from == |es| || es[from].name.None? then j
    else if es[from].name.value == name then from
    else SeekName(es, j, name, from + 1)
  }

  /** Where getDeltaIndexEntry ends. */
  function Locate(es: seq<Entry>, key: nat, name: Name): (j: nat)
    ensures j <= |es|
  {
    var j := Seek(es, key, 0);
    if j < |es| && KeyAt(es, j) == key then SeekName(es, j, name, j + 1) else j
  }

  /** Starting after entries that are all below the key changes nothing. */
  lemma {:induction false} SeekFrom(es: seq<Entry>, key: nat, from: nat)
    requires from <= |es| && (from > 0 ==> KeySum(es[..from]) < key)
    ensures Seek(es, key, 0) == Seek(es, key, from)
  {
    if from > 0 {
      KeysInOrder(es, from - 1, from);
      SeekFrom(es, key, from - 1);
    }
  }

  lemma {:induction false} SeekMeaning(es: seq<Entry>, key: nat, from: nat)
    requires from <= |es| && (from > 0 ==> KeySum(es[..from]) < key)
    ensures IsSeek(es, key, Seek(es, key, from))
    decreases |es| - from
  {
    if from < |es| && key > KeyAt(es, from) {
      SeekMeaning(es, key, from + 1);
    }
  }

  /** Entry j is the first whose key is not below the key sought. */
  ghost predicate IsSeek(es: seq<Entry>, key: nat, j: nat)
  {
    j <= |es| && (j > 0 ==> KeySum(es[..j]) < key) && (j < |es| ==> key <= KeyAt(es, j))
  }

  lemma SeekPlain(f: Format, es: seq<Entry>, key: nat, j: nat)
    requires WellFormed(f, es) && IsSeek(es, key, j) && j < |es|
    ensures es[j].name.None?
  {
    KeyStep(es, j);
  }

  /** None of the collisions from entry j to the end of its group has the name. */
  ghost predicate NotInGroup(es: seq<Entry>, j: nat, name: Name, end: nat) {
    && j < end <= |es| && (end < |es| ==> es[end].name.None?)
    && forall i :: j < i < end ==> es[i].name.Some? && es[i].name.value != name
  }

  lemma {:induction false} SeekNameMeaning(es: seq<Entry>, j: nat, name: Name, from: nat)
    requires j < from <= |es|
    requires forall i :: j < i < from ==> es[i].name.Some? && es[i].name.value != name
    ensures var k := SeekName(es, j, name, from);
      if k == j then exists end: nat :: NotInGroup(es, j, name, end)
      else es[k].name == Some(name) && forall i :: j < i < k ==> es[i].name.Some?
    decreases |es| - from
  {
    if from < |es| && es[from].name.Some? && es[from].name.value != name {
      SeekNameMeaning(es, j, name, from + 1);
    } else if from == |es| || es[from].name.None? {
      assert NotInGroup(es, j, name, from);
    }
  }

  /** What a search finds, in terms of the records: the collision record of the
      name if it has one; otherwise the plain record with the key if there is one;
      otherwise the place where a record with the key belongs. */
  lemma LocateMeaning(f: Format, es: seq<Entry>, key: nat, name: Name)
    requires WellFormed(f, es)
    ensures var v, r := View(es), Locate(es, key, name);
      if exists i :: 0 <= i < |v| && v[i].key == key && v[i].name == Some(name) then
        r < |v| && v[r].key == key && v[r].name == Some(name)
      else if exists i :: 0 <= i < |v| && v[i].key == key then
        r < |v| && v[r].key == key && v[r].name.None?
      else
        (forall i :: 0 <= i < r ==> v[i].key < key) && (forall i :: r <= i < |v| ==> v[i].key > key)
  {
    hide KeySum;
    ViewInOrder(f, es);
    var v, j, r := View(es), Seek(es, key, 0), Locate(es, key, name);
    SeekMeaning(es, key, 0);
    if j > 0 {
      assert forall i :: 0 <= i < j ==> v[i].key <= v[j - 1].key < key;
    }
    if j < |es| {
      assert forall i :: j < i < |v| ==> v[j].key <= v[i].key;
      if v[j].key == key {
        GroupSearch(f, es, j, name);
      }
    }
  }

  /** No two records have the same key and name. */
  ghost predicate Distinct(v: seq<Record>) {
    forall i, j :: 0 <= i < j < |v| && v[i].key == v[j].key ==> v[i].name != v[j].name
  }

  /** A record that a search for a name should find. */
  ghost predicate Matches(v: seq<Record>, i: nat, key: nat, name: Name) {
    && i < |v| && v[i].key == key
    && (v[i].name == Some(name) ||
          (v[i].name.None? && forall k :: 0 <= k < |v| ==> v[k].key != key || v[k].name != Some(name)))
  }

  /** The search finds it. */
  lemma LocateIs(f: Format, es: seq<Entry>, key: nat, name: Name, i: nat)
    requires WellFormed(f, es) && Distinct(View(es)) && Matches(View(es), i, key, name)
    ensures Locate(es, key, name) == i
  {
    hide KeySum, Locate, WellFormed;
    var v, r := View(es), Locate(es, key, name);
    LocateMeaning(f, es, key, name);
    assert r < |v| && v[r].key == key && v[r].name == v[i].name;
    assert r == i;
  }

  /** The search among the records with the key of a plain record. */
  lemma GroupSearch(f: Format, es: seq<Entry>, j: nat, name: Name)
    requires WellFormed(f, es) && j < |es| && es[j].name.None?
    ensures var v, k := View(es), SeekName(es, j, name, j + 1);
      && v[k].key == v[j].key
      && (k != j ==> v[k].name == Some(name))
      && (k == j ==> forall i :: j <= i < |v| && v[i].key == v[j].key ==> v[i].name != Some(name))
  {
    hide KeySum;
    ViewInOrder(f, es);
    var v, k := View(es), SeekName(es, j, name, j + 1);
    SeekNameMeaning(es, j, name, j + 1);
    if k != j {
      CollisionsShareKey(v, j, k);
    } else {
      var end: nat :| NotInGroup(es, j, name, end);
      if end < |es| {
        assert v[end].key != v[end - 1].key && v[j].key <= v[end - 1].key;
        assert forall i :: end <= i < |v| ==> v[end].key <= v[i].key;
      }
    }
  }

  lemma {:induction false} CollisionsShareKey(v: seq<Record>, j: nat, k: nat)
    requires j <= k < |v|
    requires forall i :: j < i <= k ==> v[i].key == v[i - 1].key
    ensures v[k].key == v[j].key
  {
    if j < k {
      CollisionsShareKey(v, j, k - 1);
    }
  }
}
