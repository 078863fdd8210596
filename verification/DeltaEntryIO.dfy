/** Entries in memory: reading and writing one entry of a delta list. */
module DeltaEntryIO {
  import opened Bits
  import opened Numbers
  import opened DeltaCode
  import opened DeltaLayout
  import opened DeltaEntries

  /** Write the code of a delta. */
  method EncodeDelta(c: Coding, a: array<Byte>, offset: nat, delta: nat)
    requires IsCoding(c) && (offset + |Encode(c, delta)|) / 8 + 7 <= a.Length
    modifies a
    ensures Stream(a[..]) == Splice(old(Stream(a[..])), offset, Encode(c, delta))
  {
    hide Stream, Splice, ToBits, Encode, Pow2;
    ghost var s := Stream(a[..]);
    EncodedSize(c, delta);
    if delta < c.minKeys {
      ShortCode(c, delta);
      WriteNumber(delta, a, offset, c.minBits);
      return;
    }
    var temp := delta - c.minKeys;
    var t1, t2 := temp % c.incrKeys + c.minKeys, temp / c.incrKeys;
    DivMod(temp, c.incrKeys);
    LongCode(c, delta, t2, temp % c.incrKeys);
    WriteNumber(t1, a, offset, c.minBits);
    FillBits(a, offset + c.minBits, t2, false);
    FillBits(a, offset + c.minBits + t2, 1, true);
    assert seq(t2, _ => false) == Zeros(t2) && seq(1, _ => true) == [true];
    SpliceTwice(s, offset, ToBits(t1, c.minBits), Zeros(t2));
    SpliceTwice(s, offset, ToBits(t1, c.minBits) + Zeros(t2), [true]);
  }

  /** setField of a number that fits. */
  method WriteNumber(value: nat, a: array<Byte>, offset: nat, size: nat)
    requires size <= MAX_FIELD_BITS && value < Pow2(size) && offset / 8 + 4 <= a.Length
    modifies a
    ensures Stream(a[..]) == Splice(old(Stream(a[..])), offset, ToBits(value, size))
  {
    hide Stream, Splice, ToBits;
    ToBitsFits(value, size, 32);
    assert Fits(ToBits(value, 32), size);
    WriteField(ToBits(value, 32), a, offset, size, 4);
    assert ToBits(value, 32)[..size] == ToBits(value, size);
  }

  /** Write an entry. */
  method EncodeEntry(f: Format, a: array<Byte>, offset: nat, e: Entry, entryBits: nat)
    requires IsFormat(f) && f.coding.incrKeys > 0 && entryBits == |EntryCode(f, e)| && e.value < Pow2(f.valueBits)
    requires (offset + |EntryCode(f, e)|) / 8 + 7 <= a.Length
    modifies a
    ensures Stream(a[..]) == Splice(old(Stream(a[..])), offset, EntryCode(f, e))
  {
    hide Stream, Splice, ToBits, Encode, Pow2, IsFormat, IsCoding;
    ghost var s := Stream(a[..]);
    EncodePlain(f, a, offset, e);
    ghost var plain := ToBits(e.value, f.valueBits) + Encode(f.coding, e.delta);
    if e.name.Some? {
      NameFits(offset, |plain|, a.Length);
      SetBytes(a, offset + entryBits - COLLISION_BITS, e.name.value);
      SpliceTwice(s, offset, plain, Stream(e.name.value));
    } else {
      assert plain + NameBits(e.name) == plain;
    }
  }

  lemma NameFits(offset: nat, plain: nat, length: nat)
    requires (offset + plain + COLLISION_BITS) / 8 + 7 <= length
    ensures (offset + plain) / 8 + COLLISION_BYTES + 1 <= length
  {
  }

  /** Write an entry without its name. */
  method EncodePlain(f: Format, a: array<Byte>, offset: nat, e: Entry)
    requires IsFormat(f) && f.coding.incrKeys > 0 && e.value < Pow2(f.valueBits)
    requires (offset + |EntryCode(f, e)|) / 8 + 7 <= a.Length
    modifies a
    ensures |EntryCode(f, e)| >= f.valueBits + |Encode(f.coding, e.delta)|
    ensures Stream(a[..]) ==
      Splice(old(Stream(a[..])), offset, ToBits(e.value, f.valueBits) + Encode(f.coding, e.delta))
  {
    FormatBasics(f);
    hide Stream, Splice, ToBits, Encode, Pow2, IsFormat, IsCoding;
    EntrySize(f, e);
    ghost var s := Stream(a[..]);
    WriteNumber(e.value, a, offset, f.valueBits);
    EncodeDelta(f.coding, a, offset + f.valueBits, e.delta);
    SpliceTwice(s, offset, ToBits(e.value, f.valueBits), Encode(f.coding, e.delta));
  }

  /** Where the parts of entry j lie in memory. */
  lemma EntryInMemory(f: Format, m: seq<Byte>, l: DeltaList, es: seq<Entry>, j: nat)
    requires IsFormat(f) && l.End() + GUARD_BITS <= 8 * |m| && ListBits(m, l) == ListCode(f, es) && j < |es|
    ensures var at, code := l.start + OffsetOf(f, es, j), EntryCode(f, es[j]);
      at + |code| <= l.End() && Stream(m)[at..at + |code|] == code
  {
    FormatBasics(f);
    hide Stream, EntryCode, ListCode, IsFormat, IsCoding;
    EntryInList(f, es, j);
    var o, n := OffsetOf(f, es, j), |EntryCode(f, es[j])|;
    Parts(ListCode(f, es[..j]), EntryCode(f, es[j]), ListCode(f, es[j + 1..]));
    SubSlice(Stream(m), l.start, l.End(), o, o + n);
  }

  /** The parts of the code of an entry. */
  lemma EntryParts(f: Format, e: Entry)
    requires f.coding.incrKeys > 0
    ensures var code, n := EntryCode(f, e), |Encode(f.coding, e.delta)|;
      && f.valueBits + n <= |code|
      && code[0..f.valueBits] == ToBits(e.value, f.valueBits)
      && code[f.valueBits..f.valueBits + n] == Encode(f.coding, e.delta)
      && (e.name.Some? ==> code[|code| - COLLISION_BITS..|code|] == Stream(e.name.value))
  {
    hide Encode, ToBits, Stream;
    Parts(ToBits(e.value, f.valueBits), Encode(f.coding, e.delta), NameBits(e.name));
  }

  lemma Parts<T>(a: seq<T>, b: seq<T>, c: seq<T>)
    ensures (a + b + c)[0..|a|] == a && (a + b + c)[|a|..|a| + |b|] == b && (a + b + c)[|a| + |b|..] == c
  {
  }

  lemma DeltaInMemory(f: Format, m: seq<Byte>, l: DeltaList, es: seq<Entry>, j: nat)
    requires IsFormat(f) && l.End() + GUARD_BITS <= 8 * |m| && ListBits(m, l) == ListCode(f, es) && j < |es|
    ensures var at := l.start + OffsetOf(f, es, j) + f.valueBits;
      && at <= 8 * |m|
      && CodeAt(f.coding, m, at)
      && Decode(f.coding, Stream(m)[at..]) == Decoded(es[j].delta, |Encode(f.coding, es[j].delta)|)
  {
    hide Stream, ListCode, EntryCode, Encode, Decode, ToBits, IsFormat, IsCoding, ListBits, CodeAt;
    FormatBasics(f);
    var at, code := l.start + OffsetOf(f, es, j), EntryCode(f, es[j]);
    EntryInMemory(f, m, l, es, j);
    EntryParts(f, es[j]);
    ReadDelta(f.coding, m, at, code, f.valueBits, es[j].delta);
  }

  /** Reading a delta inside a code. */
  lemma ReadDelta(c: Coding, m: seq<Byte>, at: nat, code: seq<bool>, skip: nat, delta: nat)
    requires IsCoding(c) && c.incrKeys > 0
    requires at + |code| + GUARD_BITS <= 8 * |m| && Stream(m)[at..at + |code|] == code
    requires skip + |Encode(c, delta)| <= |code| && code[skip..skip + |Encode(c, delta)|] == Encode(c, delta)
    ensures CodeAt(c, m, at + skip) && Decode(c, Stream(m)[at + skip..]) == Decoded(delta, |Encode(c, delta)|)
  {
    hide Stream, Encode, Decode, IsCoding;
    var s, n, from := Stream(m), |Encode(c, delta)|, at + skip;
    SubSlice(s, at, at + |code|, skip, skip + n);
    assert s[from..] == s[from..from + n] + s[from + n..];
    DecodeEncode(c, delta, s[from + n..]);
  }

  lemma ValueInMemory(f: Format, m: seq<Byte>, l: DeltaList, es: seq<Entry>, j: nat)
    requires IsFormat(f) && l.End() + GUARD_BITS <= 8 * |m| && ListBits(m, l) == ListCode(f, es) && j < |es|
    requires es[j].value < Pow2(f.valueBits)
    ensures var at := l.start + OffsetOf(f, es, j);
      f.valueBits <= MAX_FIELD_BITS && at / 8 + 4 <= |m| && Val(GetField(m, at, f.valueBits)) == es[j].value
  {
    hide Stream, ListCode, EntryCode, ToBits, IsFormat, IsCoding, ListBits, Encode, Val, GetField, Pow2;
    FormatBasics(f);
    var at, code := l.start + OffsetOf(f, es, j), EntryCode(f, es[j]);
    EntryInMemory(f, m, l, es, j);
    EntryParts(f, es[j]);
    ReadValue(m, at, code, es[j].value, f.valueBits);
  }

  /** Reading a value at the beginning of a code. */
  lemma ReadValue(m: seq<Byte>, at: nat, code: seq<bool>, value: nat, size: nat)
    requires at + |code| + GUARD_BITS <= 8 * |m| && Stream(m)[at..at + |code|] == code
    requires size <= MAX_FIELD_BITS && size <= |code| && code[0..size] == ToBits(value, size) && value < Pow2(size)
    ensures at / 8 + 4 <= |m| && Val(GetField(m, at, size)) == value
  {
    hide Stream, ToBits, Val, GetField, Pow2;
    SubSlice(Stream(m), at, at + |code|, 0, size);
    ValPadded(ToBits(value, size), 32 - size);
    ValOfBits(value, size);
  }

  lemma NameInMemory(f: Format, m: seq<Byte>, l: DeltaList, es: seq<Entry>, j: nat)
    requires IsFormat(f) && l.End() + GUARD_BITS <= 8 * |m| && ListBits(m, l) == ListCode(f, es) && j < |es|
    requires es[j].name.Some?
    ensures var at := l.start + OffsetOf(f, es, j) + |EntryCode(f, es[j])| - COLLISION_BITS;
      at >= 0 && at / 8 + COLLISION_BYTES + 1 <= |m| && Stream(m)[at..at + COLLISION_BITS] == Stream(es[j].name.value)
  {
    hide Stream, ListCode, EntryCode, Encode, ToBits, IsFormat, IsCoding, ListBits;
    FormatBasics(f);
    var at, code := l.start + OffsetOf(f, es, j), EntryCode(f, es[j]);
    EntryInMemory(f, m, l, es, j);
    EntrySize(f, es[j]);
    EntryParts(f, es[j]);
    SubSlice(Stream(m), at, at + |code|, |code| - COLLISION_BITS, |code|);
  }

  /** Byte strings with the same bits are the same. */
  lemma StreamIsInjective(a: seq<Byte>, b: seq<Byte>)
    requires Stream(a) == Stream(b)
    ensures a == b
  {
    assert |Stream(a)| == |Stream(b)|;
    forall i | 0 <= i < |a|
      ensures a[i] == b[i]
    {
      StreamByte(a, i);
      StreamByte(b, i);
    }
  }
}
