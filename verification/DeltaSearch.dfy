/** Searching one delta list, whether in a mutable index or on a page. */
module DeltaSearch {
  import opened Bits
  import opened Numbers
  import opened DeltaCode
  import opened DeltaLayout
  import opened DeltaEntries
  import opened DeltaEntryIO
  import opened UdsStatus

  /** The cursor of a search. */
  datatype Cursor = Cursor(
    list: nat,          // the list, counted from the first of its zone
    key: nat,           // the key of this entry
    offset: nat,        // the bit offset of this entry within its list
    delta: nat,         // the distance to the previous key
    entryBits: nat,     // the size of this entry
    atEnd: bool,        // past the last entry
    isCollision: bool)

  /** The memory holds the list with the given entries. */
  ghost predicate Stored(f: Format, m: seq<Byte>, l: DeltaList, es: seq<Entry>)
  {
    && IsFormat(f) && WellFormed(f, es)
    && l.End() + GUARD_BITS <= 8 * |m| && ListBits(m, l) == ListCode(f, es)
  }

  /** The cursor describes entry j, or the end of the list. */
  ghost predicate At(f: Format, es: seq<Entry>, cur: Cursor, j: nat)
    requires f.coding.incrKeys > 0
  {
    && j <= |es| && cur.offset == OffsetOf(f, es, j) && cur.atEnd == (j == |es|)
    && (j < |es| ==>
          && cur.key == KeyAt(es, j) && cur.delta == es[j].delta
          && cur.entryBits == |EntryCode(f, es[j])| && cur.isCollision == es[j].name.Some?)
    && (j == |es| ==> cur.key == KeySum(es) && cur.delta == 0 && !cur.isCollision)
  }

  /** The next entry to decode is entry j. */
  ghost predicate Ready(f: Format, es: seq<Entry>, cur: Cursor, j: nat)
    requires f.coding.incrKeys > 0
  {
    && j <= |es| && !cur.atEnd
    && cur.offset + cur.entryBits == OffsetOf(f, es, j) && cur.key == KeySum(es[..j])
  }

  lemma AtKey(f: Format, es: seq<Entry>, cur: Cursor, j: nat)
    requires f.coding.incrKeys > 0 && At(f, es, cur, j)
    ensures j <= |es| && cur.atEnd == (j == |es|) && (j == |es| ==> !cur.isCollision)
    ensures j < |es| ==> cur.key == KeyAt(es, j) && cur.isCollision == es[j].name.Some?
  {
  }

  lemma AtIsReady(f: Format, es: seq<Entry>, cur: Cursor, j: nat)
    requires IsFormat(f) && At(f, es, cur, j) && j < |es|
    ensures f.coding.incrKeys > 0 && Ready(f, es, cur, j + 1)
  {
    FormatBasics(f);
    EntryInList(f, es, j);
  }

  /** Find the next entry of a list. */
  method Next(f: Format, m: array<Byte>, l: DeltaList, cur: Cursor, ghost es: seq<Entry>, ghost j: nat)
    returns (status: Status, next: Cursor)
    requires Stored(f, m[..], l, es) && f.coding.incrKeys > 0
    requires cur.atEnd || Ready(f, es, cur, j)
    ensures cur.atEnd ==> status.BadState? && next == cur
    ensures !cur.atEnd ==> status.Success? && At(f, es, next, j) && next.list == cur.list
  {
    hide Stream, ListCode, EntryCode, Encode, Decode, IsFormat, IsCoding, WellFormed, CodeAt, KeySum;
    if cur.atEnd {
      return BadState, cur;
    }
    var offset := cur.offset + cur.entryBits;
    EntryEnds(f, es, j, l.size);
    if offset >= l.size {
      assert es[..j] == es;
      next := cur.(offset := offset, atEnd := true, delta := 0, isCollision := false);
      return if offset == l.size then Success else CorruptData, next;
    }
    DeltaInMemory(f, m[..], l, es, j);
    assert IsCoding(f.coding) by { FormatBasics(f); }
    var delta, keyBits := DecodeDelta(f.coding, m, l.start + offset + f.valueBits);
    EntrySize(f, es[j]);
    KeyStep(es, j);
    var isCollision := delta == 0 && offset > 0;
    EntryKind(f, es, j);
    var entryBits := f.valueBits + keyBits + (if isCollision then COLLISION_BITS else 0);
    next := cur.(offset := offset, delta := delta, key := cur.key + delta, isCollision := isCollision,
      entryBits := entryBits);
    status := if offset + entryBits > l.size then CorruptData else Success;
  }

  /** An entry other than the last ends before the list does. */
  lemma EntryEnds(f: Format, es: seq<Entry>, j: nat, size: nat)
    requires IsFormat(f) && f.coding.incrKeys > 0 && j <= |es| && size == |ListCode(f, es)|
    ensures OffsetOf(f, es, j) <= size && (OffsetOf(f, es, j) == size <==> j == |es|)
    ensures j < |es| ==> OffsetOf(f, es, j) + |EntryCode(f, es[j])| <= size
  {
    hide ListCode, EntryCode, IsFormat;
    assert es[..|es|] == es;
    OffsetsGrow(f, es, j, |es|);
    if j < |es| {
      EntryInList(f, es, j);
      OffsetsGrow(f, es, j + 1, |es|);
    }
  }

  /** A delta of zero is a collision except at the start of the list. */
  lemma EntryKind(f: Format, es: seq<Entry>, j: nat)
    requires IsFormat(f) && f.coding.incrKeys > 0 && WellFormed(f, es) && j < |es|
    ensures es[j].name.Some? <==> es[j].delta == 0 && OffsetOf(f, es, j) > 0
  {
    hide IsFormat;
    assert es[..0] == [];
    OffsetsGrow(f, es, 0, j);
  }

  /** Walk to the first entry whose key is not below the key sought. */
  method SeekKey(f: Format, m: array<Byte>, l: DeltaList, start: Cursor, key: nat, ghost es: seq<Entry>, ghost i: nat)
    returns (cur: Cursor)
    requires Stored(f, m[..], l, es) && f.coding.incrKeys > 0
    requires Ready(f, es, start, i) && (i > 0 ==> KeySum(es[..i]) < key)
    ensures At(f, es, cur, Seek(es, key, 0)) && cur.list == start.list
  {
    hide Stored, OffsetOf, EntryCode, KeySum;
    ghost var j := i;
    var status;
    SeekFrom(es, key, i);
    status, cur := Next(f, m, l, start, es, j);
    while !cur.atEnd && key > cur.key
      invariant At(f, es, cur, j) && Seek(es, key, i) == Seek(es, key, j) && cur.list == start.list
      decreases |es| - j
    {
      assert IsFormat(f) by { StoredBasics(f, m[..], l, es); }
      AtIsReady(f, es, cur, j);
      j := j + 1;
      status, cur := Next(f, m, l, cur, es, j);
    }
  }

  lemma StoredBasics(f: Format, m: seq<Byte>, l: DeltaList, es: seq<Entry>)
    requires Stored(f, m, l, es)
    ensures IsFormat(f) && WellFormed(f, es) && l.End() + GUARD_BITS <= 8 * |m| && ListBits(m, l) == ListCode(f, es)
  {
  }

  /** Look for a collision with the name among those that follow the entry found. */
  method SeekCollision(f: Format, m: array<Byte>, l: DeltaList, found: Cursor, name: Name, ghost es: seq<Entry>,
      ghost j: nat) returns (cur: Cursor)
    requires Stored(f, m[..], l, es) && f.coding.incrKeys > 0
    requires j < |es| && At(f, es, found, j)
    ensures At(f, es, cur, SeekName(es, j, name, j + 1)) && cur.list == found.list
  {
    hide Stored, OffsetOf, EntryCode, KeySum, Stream;
    cur := found;
    var other := found;
    ghost var k := j;
    while true
      invariant j <= k < |es| && At(f, es, other, k) && other.list == found.list
      invariant SeekName(es, j, name, j + 1) == SeekName(es, j, name, k + 1)
      decreases |es| - k
    {
      StoredBasics(f, m[..], l, es);
      AtIsReady(f, es, other, k);
      k := k + 1;
      var status;
      status, other := Next(f, m, l, other, es, k);
      if other.atEnd || !other.isCollision {
        return;
      }
      NameInMemory(f, m[..], l, es, k);
      var collisionName := GetBytes(m, l.start + other.offset + other.entryBits - COLLISION_BITS, COLLISION_BYTES);
      StreamIsInjective(collisionName, es[k].name.value);
      if collisionName == name {
        cur := other;
        return;
      }
    }
  }
}
