/** Bit fields at arbitrary bit offsets of a byte array (uds/bits.c, uds/bits.h).

    A byte is its eight bits, least significant first, and a machine word is its
    bits in the same order, so that the C operators >>, <<, &, | and ~ are Shr,
    Shl, And, Or and Not below. Memory is an array of bytes. Its meaning is
    Stream, the sequence of all its bits in little endian order; every routine
    that writes memory is specified by the Splice it makes in that stream. */
module Bits {

  const CHAR_BIT := 8
  /** The largest field getField and setField support. */
  const MAX_FIELD_BITS := 25
  /** The largest field getBigField and setBigField support. */
  const MAX_BIG_FIELD_BITS := 57
  /** Bytes past the end of a field that the routines may touch. */
  const POST_FIELD_GUARD_BYTES := 7

  type Byte = b: seq<bool> | |b| == 8
    witness [false, false, false, false, false, false, false, false]

  /** All the bits of a byte string, in little endian order. */
  function Stream(m: seq<Byte>): (s: seq<bool>)
    ensures |s| == 8 * |m|
  {
    seq(8 * |m|, i requires 0 <= i < 8 * |m| => m[i / 8][i % 8])
  }

  /** The sequence s with the elements from offset on replaced by w. */
  function Splice<T>(s: seq<T>, offset: nat, w: seq<T>): (r: seq<T>)
    requires offset + |w| <= |s|
    ensures |r| == |s|
  {
    s[..offset] + w + s[offset + |w|..]
  }

  function Zeros(n: nat): (z: seq<bool>)
    ensures |z| == n
  {
    seq(n, _ => false)
  }

  // ---------------------------------------------------------------- words

  function Shr(w: seq<bool>, k: nat): (r: seq<bool>)
    requires k <= |w|
    ensures |r| == |w|
  {
    w[k..] + Zeros(k)
  }

  function Shl(w: seq<bool>, k: nat): (r: seq<bool>)
    requires k <= |w|
    ensures |r| == |w|
  {
    Zeros(k) + w[..|w| - k]
  }

  function And(x: seq<bool>, y: seq<bool>): (r: seq<bool>)
    requires |x| == |y|
    ensures |r| == |x|
  {
    seq(|x|, i requires 0 <= i < |x| => x[i] && y[i])
  }

  function Or(x: seq<bool>, y: seq<bool>): (r: seq<bool>)
    requires |x| == |y|
    ensures |r| == |x|
  {
    seq(|x|, i requires 0 <= i < |x| => x[i] || y[i])
  }

  function Not(x: seq<bool>): (r: seq<bool>)
    ensures |r| == |x|
  {
    seq(|x|, i requires 0 <= i < |x| => !x[i])
  }

  /** (1 << size) - 1 in a word of the given width. */
  function LowMask(width: nat, size: nat): (r: seq<bool>)
    ensures |r| == width
  {
    seq(width, i => i < size)
  }

  /** A word whose bits from size up are zero: its value is below 1 << size. */
  predicate Fits(w: seq<bool>, size: nat) {
    forall i :: size <= i < |w| ==> !w[i]
  }

  // ------------------------------------------------------ words in memory

  lemma StreamSlice(m: seq<Byte>, from: nat, to: nat)
    requires from <= to <= |m|
    ensures Stream(m[from..to]) == Stream(m)[8 * from..8 * to]
  {
    forall i | 0 <= i < 8 * (to - from)
      ensures Stream(m[from..to])[i] == Stream(m)[8 * from..8 * to][i]
    {
      assert (8 * from + i) / 8 == from + i / 8;
      assert (8 * from + i) % 8 == i % 8;
    }
  }

  lemma StreamByte(m: seq<Byte>, a: nat)
    requires a < |m|
    ensures Stream(m)[8 * a..8 * a + 8] == m[a]
  {
    forall i | 0 <= i < 8
      ensures Stream(m)[8 * a + i] == m[a][i]
    {
      assert (8 * a + i) / 8 == a && (8 * a + i) % 8 == i;
    }
  }

  lemma StreamUpdate(m: seq<Byte>, a: nat, b: Byte)
    requires a < |m|
    ensures Stream(m[a := b]) == Splice(Stream(m), 8 * a, b)
  {
    var s, t := Stream(m[a := b]), Splice(Stream(m), 8 * a, b);
    forall i | 0 <= i < |s|
      ensures s[i] == t[i]
    {
      if 8 * a <= i < 8 * a + 8 {
        assert i / 8 == a && i % 8 == i - 8 * a;
      }
    }
  }

  /** The little endian word of n bytes at an address. */
  function LoadLE(m: seq<Byte>, addr: nat, n: nat): (w: seq<bool>)
    requires addr + n <= |m|
    ensures |w| == 8 * n
    ensures w == Stream(m)[8 * addr..8 * (addr + n)]
  {
    StreamSlice(m, addr, addr + n);
    Stream(m[addr..addr + n])
  }

  lemma SpliceTwice<T>(s: seq<T>, offset: nat, v: seq<T>, w: seq<T>)
    requires offset + |v| + |w| <= |s|
    ensures Splice(Splice(s, offset, v), offset + |v|, w) == Splice(s, offset, v + w)
  {
  }

  lemma SubSlice<T>(s: seq<T>, from: nat, to: nat, i: nat, j: nat)
    requires i <= j && from + j <= to <= |s|
    ensures s[from..to][i..j] == s[from + i..from + j]
  {
    var x, y := s[from..to][i..j], s[from + i..from + j];
    assert forall k :: 0 <= k < |x| ==> x[k] == s[from + i + k] == y[k];
  }

  lemma SpliceNothing<T>(s: seq<T>, offset: nat, w: seq<T>)
    requires offset <= |s| && w == []
    ensures Splice(s, offset, w) == s
  {
  }

  lemma SpliceHolds<T>(s: seq<T>, offset: nat, w: seq<T>)
    requires offset + |w| <= |s|
    ensures Splice(s, offset, w)[offset..offset + |w|] == w
  {
  }

  lemma SpliceKeeps<T>(s: seq<T>, offset: nat, w: seq<T>, from: nat, to: nat)
    requires offset + |w| <= |s| && from <= to <= |s|
    requires to <= offset || offset + |w| <= from
    ensures Splice(s, offset, w)[from..to] == s[from..to]
  {
  }

  lemma SpliceInside<T>(s: seq<T>, offset: nat, n: nat, shift: nat, v: seq<T>)
    requires offset + n <= |s| && shift + |v| <= n
    ensures Splice(s, offset, Splice(s[offset..offset + n], shift, v)) == Splice(s, offset + shift, v)
  {
  }

  /** Store a little endian word. */
  method StoreLE(a: array<Byte>, addr: nat, w: seq<bool>)
    requires |w| % 8 == 0 && addr + |w| / 8 <= a.Length
    modifies a
    ensures Stream(a[..]) == Splice(old(Stream(a[..])), 8 * addr, w)
  {
    hide Stream, Splice;
    ghost var s := Stream(a[..]);
    var n := |w| / 8;
    var i := 0;
    SpliceNothing(s, 8 * addr, w[..0]);
    while i < n
      invariant 0 <= i <= n
      invariant Stream(a[..]) == Splice(s, 8 * addr, w[..8 * i])
    {
      var b: Byte := w[8 * i..8 * i + 8];
      StreamUpdate(a[..], addr + i, b);
      ghost var before := a[..];
      a[addr + i] := b;
      assert a[..] == before[addr + i := b];
      SpliceTwice(s, 8 * addr, w[..8 * i], b);
      assert w[..8 * i] + b == w[..8 * (i + 1)];
      i := i + 1;
    }
    assert w[..8 * n] == w;
  }

  // --------------------------------------------------------------- fields

  /** Read a field through a word of n bytes: getField for n == 4 and
      getBigField for n == 8. */
  function ReadField(m: seq<Byte>, offset: nat, size: nat, n: nat): (w: seq<bool>)
    requires size <= 8 * n - 7
    requires offset / 8 + n <= |m|
    ensures offset + size <= 8 * |m|
    ensures w == Stream(m)[offset..offset + size] + Zeros(8 * n - size)
  {
    var word := LoadLE(m, offset / 8, n);
    And(Shr(word, offset % 8), LowMask(8 * n, size))
  }

  function GetField(m: seq<Byte>, offset: nat, size: nat): (w: seq<bool>)
    requires size <= MAX_FIELD_BITS && offset / 8 + 4 <= |m|
    ensures w == Stream(m)[offset..offset + size] + Zeros(32 - size)
  {
    ReadField(m, offset, size, 4)
  }

  function GetBigField(m: seq<Byte>, offset: nat, size: nat): (w: seq<bool>)
    requires size <= MAX_BIG_FIELD_BITS && offset / 8 + 8 <= |m|
    ensures w == Stream(m)[offset..offset + size] + Zeros(64 - size)
  {
    ReadField(m, offset, size, 8)
  }

  /** Merge a value into a word: clear the field, then OR the value in. */
  function MergeField(word: seq<bool>, value: seq<bool>, shift: nat, size: nat): (r: seq<bool>)
    requires |word| == |value| && shift + size <= |word|
    ensures |r| == |word|
  {
    Or(And(word, Not(Shl(LowMask(|word|, size), shift))), Shl(value, shift))
  }

  /** The merge replaces exactly the field when the value fits in it. */
  lemma MergeIsSplice(word: seq<bool>, value: seq<bool>, shift: nat, size: nat)
    requires |word| == |value| && shift + size <= |word|
    requires Fits(value, size)
    ensures MergeField(word, value, shift, size) == Splice(word, shift, value[..size])
  {
  }

  /** Write a field through a word of n bytes: setField for n == 4 and
      setBigField for n == 8. */
  method WriteField(value: seq<bool>, a: array<Byte>, offset: nat, size: nat, n: nat)
    requires size <= 8 * n - 7 && |value| == 8 * n && Fits(value, size)
    requires offset / 8 + n <= a.Length
    modifies a
    ensures Stream(a[..]) == Splice(old(Stream(a[..])), offset, value[..size])
  {
    hide Stream, Splice, Fits, MergeField;
    var addr, shift := offset / 8, offset % 8;
    var data := LoadLE(a[..], addr, n);
    ghost var s := Stream(a[..]);
    MergeIsSplice(data, value, shift, size);
    SpliceInside(s, 8 * addr, 8 * n, shift, value[..size]);
    data := MergeField(data, value, shift, size);
    StoreLE(a, addr, data);
  }

  /** Set a run of bits to all ones (setOne) or all zeros (setZero), a byte at a time. */
  method FillBits(a: array<Byte>, offset: nat, size: nat, one: bool)
    requires offset + size <= 8 * a.Length
    modifies a
    ensures Stream(a[..]) == Splice(old(Stream(a[..])), offset, seq(size, _ => one))
  {
    hide Stream, Splice;
    if size == 0 {
      SpliceNothing(Stream(a[..]), offset, seq(size, _ => one));
      return;
    }
    ghost var s := Stream(a[..]);
    var addr, shift := offset / 8, offset % 8;
    var done := if size + shift > 8 then 8 - shift else size;
    FillInByte(a, addr, shift, done, one);
    addr := addr + 1;
    while size - done > 8
      invariant 0 < done <= size && (done == size || offset + done == 8 * addr)
      invariant Stream(a[..]) == Splice(s, offset, seq(done, _ => one))
    {
      FillInByte(a, addr, 0, 8, one);
      FillMore(s, offset, done, 8, one);
      addr, done := addr + 1, done + 8;
    }
    if size - done > 0 {
      FillInByte(a, addr, 0, size - done, one);
      FillMore(s, offset, done, size - done, one);
    }
  }

  lemma FillMore(s: seq<bool>, offset: nat, done: nat, count: nat, one: bool)
    requires offset + done + count <= |s|
    ensures Splice(Splice(s, offset, seq(done, _ => one)), offset + done, seq(count, _ => one))
         == Splice(s, offset, seq(done + count, _ => one))
  {
    SpliceTwice(s, offset, seq(done, _ => one), seq(count, _ => one));
    assert seq(done, _ => one) + seq(count, _ => one) == seq(done + count, _ => one);
  }

  lemma FillMask(b: Byte, shift: nat, count: nat)
    requires shift + count <= 8
    ensures Or(b, Shl(LowMask(8, count), shift)) == Splice(b, shift, seq(count, _ => true))
    ensures And(b, Not(Shl(LowMask(8, count), shift))) == Splice(b, shift, seq(count, _ => false))
  {
  }

  /** The read-modify-write of one byte in setOne and setZero. */
  method FillInByte(a: array<Byte>, addr: nat, shift: nat, count: nat, one: bool)
    requires addr < a.Length && shift + count <= 8
    modifies a
    ensures Stream(a[..]) == Splice(old(Stream(a[..])), 8 * addr + shift, seq(count, _ => one))
  {
    hide Stream, Splice, Shl, LowMask, Or, And, Not;
    ghost var before := a[..];
    var mask := Shl(LowMask(8, count), shift);
    var b: Byte := if one then Or(a[addr], mask) else And(a[addr], Not(mask));
    FillMask(a[addr], shift, count);
    StreamByte(a[..], addr);
    assert a[..][addr] == a[addr];
    SpliceInside(Stream(a[..]), 8 * addr, 8, shift, seq(count, _ => one));
    StreamUpdate(a[..], addr, b);
    a[addr] := b;
    assert a[..] == before[addr := b];
  }

  /** Read whole bytes from an arbitrary bit offset. */
  method GetBytes(m: array<Byte>, offset: nat, size: nat) returns (bytes: seq<Byte>)
    requires offset / 8 + size + 1 <= m.Length
    ensures |bytes| == size && offset + 8 * size <= 8 * m.Length
    ensures Stream(bytes) == Stream(m[..])[offset..offset + 8 * size]
  {
    hide Stream, Shr;
    var addr, shift := offset / 8, offset % 8;
    ghost var s := Stream(m[..]);
    bytes := [];
    NoBytes();
    while |bytes| < size
      invariant |bytes| <= size
      invariant Stream(bytes) == s[offset..offset + 8 * |bytes|]
    {
      ShiftedWord(s, addr + |bytes|, 2, shift, 8);
      var b: Byte := Shr(LoadLE(m[..], addr + |bytes|, 2), shift)[..8];
      StreamAppend(bytes, b);
      ghost var at := offset + 8 * |bytes|;
      assert s[offset..at] + s[at..at + 8] == s[offset..at + 8];
      bytes := bytes + [b];
    }
  }

  lemma NoBytes()
    ensures Stream([]) == []
  {
  }

  /** The low bits of a shifted word are the bits from the shift on. */
  lemma ShiftedWord(s: seq<bool>, addr: nat, n: nat, shift: nat, size: nat)
    requires 8 * (addr + n) <= |s| && shift + size <= 8 * n
    ensures Shr(s[8 * addr..8 * (addr + n)], shift)[..size] == s[8 * addr + shift..8 * addr + shift + size]
  {
    var word := s[8 * addr..8 * (addr + n)];
    assert Shr(word, shift)[..size] == word[shift..shift + size];
    SubSlice(s, 8 * addr, 8 * (addr + n), shift, shift + size);
  }

  lemma StreamAppend(m: seq<Byte>, b: Byte)
    ensures Stream(m + [b]) == Stream(m) + b
  {
    StreamSlice(m + [b], 0, |m|);
    assert (m + [b])[0..|m|] == m;
  }

  /** Write whole bytes at an arbitrary bit offset, 16 bits at a time. */
  method SetBytes(a: array<Byte>, offset: nat, bytes: seq<Byte>)
    requires offset / 8 + |bytes| + 1 <= a.Length
    modifies a
    ensures Stream(a[..]) == Splice(old(Stream(a[..])), offset, Stream(bytes))
  {
    ghost var s := Stream(a[..]);
    var i := 0;
    while i < |bytes|
      invariant i <= |bytes|
      invariant Stream(a[..]) == Splice(s, offset, Stream(bytes[..i]))
    {
      assert (offset + 8 * i) / 8 == offset / 8 + i;
      WriteField(bytes[i] + Zeros(8), a, offset + 8 * i, 8, 2);
      assert (bytes[i] + Zeros(8))[..8] == bytes[i];
      StreamAppend(bytes[..i], bytes[i]);
      assert bytes[..i] + [bytes[i]] == bytes[..i + 1];
      SpliceTwice(s, offset, Stream(bytes[..i]), bytes[i]);
      i := i + 1;
    }
    assert bytes[..i] == bytes;
  }

  /** Compare two fields, 25 bits at a time. */
  method SameBits(m1: array<Byte>, offset1: nat, m2: array<Byte>, offset2: nat, size: nat) returns (same: bool)
    requires (offset1 + size + 7) / 8 + 3 <= m1.Length && (offset2 + size + 7) / 8 + 3 <= m2.Length
    ensures same == (Stream(m1[..])[offset1..offset1 + size] == Stream(m2[..])[offset2..offset2 + size])
  {
    hide Stream, GetField;
    ghost var s1, s2 := Stream(m1[..]), Stream(m2[..]);
    var done := 0;
    while size - done >= MAX_FIELD_BITS
      invariant done <= size
      invariant s1[offset1..offset1 + done] == s2[offset2..offset2 + done]
    {
      var f1 := GetField(m1[..], offset1 + done, MAX_FIELD_BITS);
      var f2 := GetField(m2[..], offset2 + done, MAX_FIELD_BITS);
      SameChunk(s1, offset1, s2, offset2, done, MAX_FIELD_BITS, f1, f2);
      if f1 != f2 {
        DifferAt(s1, offset1, s2, offset2, done + MAX_FIELD_BITS, size);
        return false;
      }
      done := done + MAX_FIELD_BITS;
    }
    if done < size {
      var f1 := GetField(m1[..], offset1 + done, size - done);
      var f2 := GetField(m2[..], offset2 + done, size - done);
      SameChunk(s1, offset1, s2, offset2, done, size - done, f1, f2);
      if f1 != f2 {
        return false;
      }
    }
    return true;
  }

  lemma DifferAt(s1: seq<bool>, o1: nat, s2: seq<bool>, o2: nat, part: nat, size: nat)
    requires part <= size && o1 + size <= |s1| && o2 + size <= |s2|
    requires s1[o1..o1 + part] != s2[o2..o2 + part]
    ensures s1[o1..o1 + size] != s2[o2..o2 + size]
  {
    assert s1[o1..o1 + part] == s1[o1..o1 + size][..part];
    assert s2[o2..o2 + part] == s2[o2..o2 + size][..part];
  }

  lemma SameChunk(s1: seq<bool>, o1: nat, s2: seq<bool>, o2: nat, done: nat, n: nat, f1: seq<bool>, f2: seq<bool>)
    requires o1 + done + n <= |s1| && o2 + done + n <= |s2| && n <= 32
    requires f1 == s1[o1 + done..o1 + done + n] + Zeros(32 - n)
    requires f2 == s2[o2 + done..o2 + done + n] + Zeros(32 - n)
    requires s1[o1..o1 + done] == s2[o2..o2 + done]
    ensures f1 == f2 <==> s1[o1..o1 + done + n] == s2[o2..o2 + done + n]
  {
    var x1, x2 := s1[o1 + done..o1 + done + n], s2[o2 + done..o2 + done + n];
    assert f1[..n] == x1 && f2[..n] == x2;
    assert s1[o1..o1 + done + n] == s1[o1..o1 + done] + x1;
    assert s2[o2..o2 + done + n] == s2[o2..o2 + done] + x2;
    assert (s1[o1..o1 + done] + x1)[done..] == x1;
    assert (s2[o2..o2 + done] + x2)[done..] == x2;
  }

  // ------------------------------------------------------------- moveBits

  /** A range of bits lies in memory with the guard bytes that the word
      accesses of MoveBits need behind it. */
  predicate Guarded(length: nat, offset: nat, size: nat) {
    (offset + size + 7) / 8 + POST_FIELD_GUARD_BYTES <= length
  }

  lemma GuardedPart(length: nat, offset: nat, size: nat, from: nat, to: nat)
    requires Guarded(length, offset, size) && from <= to <= size
    ensures offset + size <= 8 * length && Guarded(length, offset + from, to - from)
    ensures from + 32 <= size ==>
      (offset + from - (offset + from) % 32) / 8 + 8 <= length && (offset + from) / 8 + 4 <= length
  {
  }

  /** Move bits from one field to another, as if through a temporary. The two
      arrays may be one, and the fields may overlap either way. */
  method MoveBits(s: array<Byte>, source: nat, d: array<Byte>, destination: nat, size: nat)
    requires Guarded(s.Length, source, size) && Guarded(d.Length, destination, size)
    modifies d
    ensures Stream(d[..]) == Splice(old(Stream(d[..])), destination, old(Stream(s[..]))[source..source + size])
  {
    hide Stream, Splice;
    ghost var s0, d0 := Stream(s[..]), Stream(d[..]);
    if size > MAX_BIG_FIELD_BITS {
      if source > destination {
        var done := MoveLowBitsFirst(s, source, d, destination, size);
        ghost var s1, d1 := Stream(s[..]), Stream(d[..]);
        MoveField(s, source + done, d, destination + done, size - done);
        LowStep(s0, d0, source, destination, size, done, size - done, s1, d1, Stream(s[..]), Stream(d[..]));
      } else {
        var left := MoveHighBitsFirst(s, source, d, destination, size);
        ghost var s1, d1 := Stream(s[..]), Stream(d[..]);
        MoveField(s, source, d, destination, left);
        HighStep(s0, d0, source, destination, size, 0, left, s1, d1, Stream(s[..]), Stream(d[..]));
      }
    } else if size > 0 {
      MoveField(s, source, d, destination, size);
    } else {
      SpliceNothing(d0, destination, s0[source..source + size]);
    }
  }

  lemma SpliceBefore<T>(s: seq<T>, offset: nat, v: seq<T>, w: seq<T>)
    requires offset + |v| + |w| <= |s|
    ensures Splice(Splice(s, offset + |v|, w), offset, v) == Splice(s, offset, v + w)
  {
  }

  /** One getBigField and setBigField. */
  method MoveField(s: array<Byte>, source: nat, d: array<Byte>, destination: nat, size: nat)
    requires 0 < size <= MAX_BIG_FIELD_BITS
    requires Guarded(s.Length, source, size) && Guarded(d.Length, destination, size)
    modifies d
    ensures Stream(d[..]) == Splice(old(Stream(d[..])), destination, old(Stream(s[..]))[source..source + size])
  {
    hide Stream, Splice;
    var field := GetBigField(s[..], source, size);
    WriteField(field, d, destination, size, 8);
    assert field[..size] == old(Stream(s[..]))[source..source + size];
  }

  /** The 32-bit step of the main loops, to a whole word at the destination. */
  method MoveWord(s: array<Byte>, source: nat, d: array<Byte>, dest: nat)
    requires dest + 4 <= d.Length
    requires (source - source % 32) / 8 + 8 <= s.Length
    modifies d
    ensures Stream(d[..]) == Splice(old(Stream(d[..])), 8 * dest, old(Stream(s[..]))[source..source + 32])
  {
    hide Stream, Splice, Shr;
    var offset := source % 32;
    WholeWords(source / 32, source - offset);
    ShiftedWord(Stream(s[..]), (source - offset) / 8, 8, offset, 32);
    var word := Shr(LoadLE(s[..], (source - offset) / 8, 8), offset)[..32];
    StoreLE(d, dest, word);
  }

  /** A move whose low bits go first, after done bits: the destination has been
      written from below, and the rest of the source is intact. */
  ghost predicate LowMoved(s0: seq<bool>, d0: seq<bool>, source: nat, destination: nat, size: nat,
                           done: nat, s: seq<bool>, d: seq<bool>)
  {
    && destination < source && source + size <= |s0| == |s| && destination + size <= |d0| && done <= size
    && d == Splice(d0, destination, s0[source..source + done])
    && s[source + done..source + size] == s0[source + done..source + size]
  }

  lemma LowStep(s0: seq<bool>, d0: seq<bool>, source: nat, destination: nat, size: nat,
                done: nat, n: nat, s1: seq<bool>, d1: seq<bool>, s2: seq<bool>, d2: seq<bool>)
    requires LowMoved(s0, d0, source, destination, size, done, s1, d1) && done + n <= size
    requires d2 == Splice(d1, destination + done, s1[source + done..source + done + n])
    requires s2 == s1 || (s1 == d1 && s2 == d2)
    ensures LowMoved(s0, d0, source, destination, size, done + n, s2, d2)
  {
    hide Splice;
    var at, next, end := source + done, source + done + n, source + size;
    SamePart(s1, s0, at, end, at, next);
    SamePart(s1, s0, at, end, next, end);
    SpliceTwice(d0, destination, s0[source..at], s0[at..next]);
    Joined(s0, source, at, next);
    if s2 != s1 {
      SpliceKeeps(d1, destination + done, s0[at..next], next, end);
    }
  }

  lemma SamePart<T>(a: seq<T>, b: seq<T>, from: nat, to: nat, i: nat, j: nat)
    requires from <= i <= j <= to <= |a| && to <= |b| && a[from..to] == b[from..to]
    ensures a[i..j] == b[i..j]
  {
    SubSlice(a, from, to, i - from, j - from);
    SubSlice(b, from, to, i - from, j - from);
  }

  lemma Joined<T>(s: seq<T>, i: nat, j: nat, k: nat)
    requires i <= j <= k <= |s|
    ensures s[i..j] + s[j..k] == s[i..k]
  {
  }

  /** A large move from a higher to a lower offset moves the low bits first. */
  method MoveLowBitsFirst(s: array<Byte>, source: nat, d: array<Byte>, destination: nat, size: nat) returns (done: nat)
    requires size > MAX_BIG_FIELD_BITS && source > destination
    requires Guarded(s.Length, source, size) && Guarded(d.Length, destination, size)
    modifies d
    ensures 0 < size - done <= MAX_BIG_FIELD_BITS
    ensures LowMoved(old(Stream(s[..])), old(Stream(d[..])), source, destination, size, done, Stream(s[..]),
      Stream(d[..]))
  {
    hide Stream, Splice, Guarded, LowMoved, BitsToBoundary;
    ghost var s0, d0 := Stream(s[..]), Stream(d[..]);
    GuardedPart(s.Length, source, size, 0, size);
    GuardedPart(d.Length, destination, size, 0, size);
    LowStart(s0, d0, source, destination, size);
    done := BitsToBoundary(destination);
    GuardedPart(s.Length, source, size, 0, done);
    GuardedPart(d.Length, destination, size, 0, done);
    MoveField(s, source, d, destination, done);
    LowStep(s0, d0, source, destination, size, 0, done, s0, d0, Stream(s[..]), Stream(d[..]));
    var dest := (destination + done) / 8;
    while size - done > MAX_BIG_FIELD_BITS
      invariant 0 < done < size && destination + done == 8 * dest
      invariant LowMoved(s0, d0, source, destination, size, done, Stream(s[..]), Stream(d[..]))
    {
      ghost var s1, d1 := Stream(s[..]), Stream(d[..]);
      GuardedPart(s.Length, source, size, done, size);
      GuardedPart(d.Length, destination, size, done, size);
      MoveWord(s, source + done, d, dest);
      LowStep(s0, d0, source, destination, size, done, 32, s1, d1, Stream(s[..]), Stream(d[..]));
      dest, done := dest + 4, done + 32;
    }
  }

  /** How many bits to move so that the destination reaches a 32-bit boundary. */
  function BitsToBoundary(destination: nat): (count: nat)
    ensures 26 <= count <= MAX_BIG_FIELD_BITS && (destination + count) % 32 == 0
    ensures destination + count == 8 * ((destination + count) / 8)
  {
    var q, r := (destination + MAX_BIG_FIELD_BITS) / 32, (destination + MAX_BIG_FIELD_BITS) % 32;
    assert destination + MAX_BIG_FIELD_BITS == 32 * q + r;
    WholeWords(q, destination + MAX_BIG_FIELD_BITS - r);
    MAX_BIG_FIELD_BITS - r
  }

  lemma LowStart(s0: seq<bool>, d0: seq<bool>, source: nat, destination: nat, size: nat)
    requires destination < source && source + size <= |s0| && destination + size <= |d0|
    ensures LowMoved(s0, d0, source, destination, size, 0, s0, d0)
  {
    SpliceNothing(d0, destination, s0[source..source + 0]);
  }

  /** A move whose high bits go first, with left bits to go: the destination has
      been written from above, and the rest of the source is intact. */
  ghost predicate HighMoved(s0: seq<bool>, d0: seq<bool>, source: nat, destination: nat, size: nat,
                            left: nat, s: seq<bool>, d: seq<bool>)
  {
    && source <= destination && source + size <= |s0| == |s| && destination + size <= |d0| && left <= size
    && d == Splice(d0, destination + left, s0[source + left..source + size])
    && s[source..source + left] == s0[source..source + left]
  }

  lemma HighStep(s0: seq<bool>, d0: seq<bool>, source: nat, destination: nat, size: nat,
                 left: nat, n: nat, s1: seq<bool>, d1: seq<bool>, s2: seq<bool>, d2: seq<bool>)
    requires HighMoved(s0, d0, source, destination, size, left + n, s1, d1)
    requires d2 == Splice(d1, destination + left, s1[source + left..source + left + n])
    requires s2 == s1 || (s1 == d1 && s2 == d2)
    ensures HighMoved(s0, d0, source, destination, size, left, s2, d2)
  {
    hide Splice;
    var at, next, end := source + left, source + left + n, source + size;
    SamePart(s1, s0, source, next, at, next);
    SamePart(s1, s0, source, next, source, at);
    SpliceBefore(d0, destination + left, s0[at..next], s0[next..end]);
    Joined(s0, at, next, end);
    if s2 != s1 {
      SpliceKeeps(d1, destination + left, s0[at..next], source, at);
    }
  }

  /** A large move from a lower to a higher offset moves the high bits first. */
  method MoveHighBitsFirst(s: array<Byte>, source: nat, d: array<Byte>, destination: nat, size: nat) returns (left: nat)
    requires size > MAX_BIG_FIELD_BITS && source <= destination
    requires Guarded(s.Length, source, size) && Guarded(d.Length, destination, size)
    modifies d
    ensures 0 < left <= MAX_BIG_FIELD_BITS
    ensures HighMoved(old(Stream(s[..])), old(Stream(d[..])), source, destination, size, left, Stream(s[..]),
      Stream(d[..]))
  {
    hide Stream, Splice, Guarded, HighMoved, BitsPastBoundary;
    ghost var s0, d0 := Stream(s[..]), Stream(d[..]);
    GuardedPart(s.Length, source, size, 0, size);
    GuardedPart(d.Length, destination, size, 0, size);
    HighStart(s0, d0, source, destination, size);
    left := size;
    var count := BitsPastBoundary(destination + size);
    if count > 0 {
      left := size - count;
      GuardedPart(s.Length, source, size, left, size);
      GuardedPart(d.Length, destination, size, left, size);
      MoveField(s, source + left, d, destination + left, count);
      HighStep(s0, d0, source, destination, size, left, count, s0, d0, Stream(s[..]), Stream(d[..]));
    }
    var dest := (destination + left) / 8;
    while left > MAX_BIG_FIELD_BITS
      invariant 0 < left <= size && destination + left == 8 * dest
      invariant HighMoved(s0, d0, source, destination, size, left, Stream(s[..]), Stream(d[..]))
    {
      ghost var s1, d1 := Stream(s[..]), Stream(d[..]);
      dest, left := dest - 4, left - 32;
      GuardedPart(s.Length, source, size, left, size);
      GuardedPart(d.Length, destination, size, left, size);
      MoveWord(s, source + left, d, dest);
      HighStep(s0, d0, source, destination, size, left, 32, s1, d1, Stream(s[..]), Stream(d[..]));
    }
  }

  function BitsPastBoundary(end: nat): (count: nat)
    ensures count < 32 && count <= end && (end - count) % 32 == 0
    ensures end - count == 8 * ((end - count) / 8)
  {
    var q, r := end / 32, end % 32;
    assert end == 32 * q + r;
    WholeWords(q, end - r);
    r
  }

  lemma WholeWords(q: nat, x: nat)
    requires x == 32 * q
    ensures x % 32 == 0 && x == 8 * (x / 8)
  {
    WholeBytes(4 * q, x);
  }

  lemma WholeBytes(k: nat, x: nat)
    requires x == 8 * k
    ensures x / 8 == k
  {
  }

  lemma HighStart(s0: seq<bool>, d0: seq<bool>, source: nat, destination: nat, size: nat)
    requires source <= destination && source + size <= |s0| && destination + size <= |d0|
    ensures HighMoved(s0, d0, source, destination, size, size, s0, d0)
  {
    SpliceNothing(d0, destination + size, s0[source + size..source + size]);
  }
}
