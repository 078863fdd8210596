/** The variable length code of the deltas (uds/deltaIndex.c and the coding
    constants of uds/deltaMemory.c). */
module DeltaCode {
  import opened Bits
  import opened Numbers

  /** The parameters of the code: minKeys values take minBits bits, and every
      further incrKeys values take one bit more. */
  datatype Coding = Coding(minBits: nat, minKeys: nat, incrKeys: nat)

  /** What computeCodingConstants gives for every mean delta that
      initializeDeltaIndex accepts. */
  ghost predicate IsCoding(c: Coding)
  {
    && 4 <= c.minBits <= MAX_FIELD_BITS && 7 <= c.incrKeys
    && Pow2(c.minBits - 1) <= c.incrKeys + 1 < Pow2(c.minBits)
    && c.minKeys == Pow2(c.minBits) - c.incrKeys
  }

  method ComputeCodingConstants(meanDelta: nat) returns (c: Coding)
    requires 10 <= meanDelta <= 0x200_0000
    ensures IsCoding(c)
    ensures c.incrKeys == (836158 * meanDelta + 603160) / 1206321
  {
    var incrKeys := (836158 * meanDelta + 603160) / 1206321;
    var minBits := ComputeBits(incrKeys + 1);
    Pow2Values();
    assert 7 <= incrKeys && incrKeys + 1 < 0x200_0000;
    if minBits < 4 {
      Pow2Grows(minBits, 4);
    }
    if minBits > 25 {
      if minBits > 26 {
        Pow2Grows(25, minBits - 1);
      }
    }
    c := Coding(minBits, (Pow2(minBits)) - incrKeys, incrKeys);
  }

  lemma Pow2Values()
    ensures Pow2(3) == 8 && Pow2(4) == 16 && Pow2(25) == 0x200_0000 && Pow2(24) == 0x100_0000
  {
    assert Pow2(3) == 8;
    Pow2Add(3, 3);
    Pow2Add(6, 6);
    Pow2Add(12, 12);
  }

  /** The code of a delta: t1 in minBits bits, then t2 zeros and a one. */
  function Encode(c: Coding, delta: nat): (code: seq<bool>)
    requires c.incrKeys > 0
  {
    if delta < c.minKeys then ToBits(delta, c.minBits)
    else
      var temp := delta - c.minKeys;
      ToBits(temp % c.incrKeys + c.minKeys, c.minBits) + Zeros(temp / c.incrKeys) + [true]
  }

  datatype Decoded = Truncated | Decoded(delta: nat, bits: nat)

  /** Decoding a stream one bit at a time. */
  function Decode(c: Coding, s: seq<bool>): (d: Decoded)
  {
    if |s| < c.minBits then Truncated
    else
      var t1 := Val(s[..c.minBits]);
      if t1 < c.minKeys then Decoded(t1, c.minBits)
      else
        var t2 := FirstOne(s[c.minBits..]);
        if c.minBits + t2 == |s| then Truncated
        else Decoded(t2 * c.incrKeys + t1, c.minBits + t2 + 1)
  }

  /** The decoder inverts the encoder whatever follows the code: in particular
      no code is the beginning of another. */
  lemma DecodeEncode(c: Coding, delta: nat, rest: seq<bool>)
    requires IsCoding(c)
    ensures Decode(c, Encode(c, delta) + rest) == Decoded(delta, |Encode(c, delta)|)
  {
    hide ToBits, Val, FirstOne, Decode, Pow2, Encode, Zeros;
    if delta < c.minKeys {
      ShortCode(c, delta);
      DecodeWord(c, delta, 0, rest);
    } else {
      var temp := delta - c.minKeys;
      var q, r := temp / c.incrKeys, temp % c.incrKeys;
      DivMod(temp, c.incrKeys);
      LongCode(c, delta, q, r);
      DecodeWord(c, r + c.minKeys, q, rest);
    }
  }

  lemma ShortCode(c: Coding, delta: nat)
    requires c.incrKeys > 0 && delta < c.minKeys
    ensures Encode(c, delta) == ToBits(delta, c.minBits)
  {
  }

  lemma LongCode(c: Coding, delta: nat, q: nat, r: nat)
    requires c.incrKeys > 0 && delta >= c.minKeys
    requires q == (delta - c.minKeys) / c.incrKeys && r == (delta - c.minKeys) % c.incrKeys
    ensures Encode(c, delta) == ToBits(r + c.minKeys, c.minBits) + Zeros(q) + [true]
    ensures |Encode(c, delta)| == c.minBits + q + 1
  {
    hide ToBits;
  }

  lemma DecodeWord(c: Coding, t1: nat, t2: nat, rest: seq<bool>)
    requires t1 < Pow2(c.minBits)
    ensures t1 < c.minKeys ==> Decode(c, ToBits(t1, c.minBits) + rest) == Decoded(t1, c.minBits)
    ensures t1 >= c.minKeys ==>
      Decode(c, ToBits(t1, c.minBits) + Zeros(t2) + [true] + rest) == Decoded(t2 * c.incrKeys + t1, c.minBits + t2 + 1)
  {
    hide ToBits, Val, Pow2;
    ValOfBits(t1, c.minBits);
    if t1 < c.minKeys {
      var s := ToBits(t1, c.minBits) + rest;
      assert s[..c.minBits] == ToBits(t1, c.minBits);
    } else {
      var s := ToBits(t1, c.minBits) + Zeros(t2) + [true] + rest;
      assert s[..c.minBits] == ToBits(t1, c.minBits);
      var tail := s[c.minBits..];
      assert tail[t2] && forall i :: 0 <= i < t2 ==> !tail[i];
      assert FirstOne(tail) == t2;
    }
  }

  lemma DivMod(x: nat, n: nat)
    requires n > 0
    ensures x == x / n * n + x % n && 0 <= x % n < n
  {
  }

  /** The encoder inverts the decoder: every decodable stream begins with the
      code of what it decodes to. */
  lemma EncodeDecode(c: Coding, s: seq<bool>)
    requires IsCoding(c) && Decode(c, s).Decoded?
    ensures Decode(c, s).bits <= |s|
    ensures Encode(c, Decode(c, s).delta) == s[..Decode(c, s).bits]
  {
    hide ToBits, Val, FirstOne, Encode, Pow2;
    var t1 := Val(s[..c.minBits]);
    BitsOfVal(s[..c.minBits]);
    if t1 >= c.minKeys {
      var t2 := FirstOne(s[c.minBits..]);
      CodeRange(c, t1);
      Quotient(t2, t1 - c.minKeys, c.incrKeys);
      LongCode(c, t2 * c.incrKeys + t1, t2, t1 - c.minKeys);
      assert s[..c.minBits + t2 + 1] == s[..c.minBits] + s[c.minBits..][..t2 + 1];
      assert s[c.minBits..][..t2 + 1] == Zeros(t2) + [true];
    } else {
      ShortCode(c, t1);
    }
  }

  lemma CodeRange(c: Coding, t1: nat)
    requires IsCoding(c) && t1 < Pow2(c.minBits)
    ensures t1 < c.minKeys + c.incrKeys
  {
  }

  lemma Quotient(q: nat, r: nat, n: nat)
    requires r < n
    ensures (q * n + r) / n == q && (q * n + r) % n == r
  {
    var x := q * n + r;
    assert x == (x / n) * n + x % n;
    MulNext(x / n, n);
    MulNext(q, n);
    MulCancel(q, x / n + 1, n);
    MulCancel(x / n, q + 1, n);
  }

  // ------------------------------------------------ sizes of codes

  /** The bits beyond minBits. */
  function ExtraBits(c: Coding, delta: nat): nat
    requires c.incrKeys > 0
  {
    if delta < c.minKeys then 0 else (delta - c.minKeys) / c.incrKeys + 1
  }

  lemma EncodedSize(c: Coding, delta: nat)
    requires c.incrKeys > 0
    ensures |Encode(c, delta)| == c.minBits + ExtraBits(c, delta)
  {
  }

  /** The key size that setDelta computes, in 32-bit unsigned arithmetic. */
  function SetDeltaKeyBits(c: Coding, delta: nat): nat
    requires c.incrKeys > 0
  {
    c.minBits + ((c.incrKeys - c.minKeys + delta) % UINT32_RANGE) / c.incrKeys
  }

  /** setDelta predicts the size of the code exactly unless the subtraction wraps. */
  lemma SetDeltaIsExact(c: Coding, delta: nat)
    requires IsCoding(c) && delta < UINT32_RANGE - c.incrKeys
    ensures SetDeltaKeyBits(c, delta) == |Encode(c, delta)| <==> c.minKeys <= c.incrKeys + delta
  {
    hide Encode, IsCoding, ExtraBits;
    CodingBounds(c);
    EncodedSize(c, delta);
    var x := c.incrKeys - c.minKeys + delta;
    UnsignedWord(x);
    if x >= 0 {
      SameExtraBits(c, delta);
    } else {
      NoExtraBits(c, delta);
      DivAtLeastOne(x + UINT32_RANGE, c.incrKeys);
    }
  }

  lemma UnsignedWord(x: int)
    requires -UINT32_RANGE <= x < UINT32_RANGE
    ensures x % UINT32_RANGE == if x < 0 then x + UINT32_RANGE else x
  {
  }

  lemma NoExtraBits(c: Coding, delta: nat)
    requires c.incrKeys > 0 && delta < c.minKeys
    ensures ExtraBits(c, delta) == 0
  {
  }

  lemma SameExtraBits(c: Coding, delta: nat)
    requires c.minKeys <= c.incrKeys + delta && c.incrKeys > 0
    ensures (c.incrKeys - c.minKeys + delta) / c.incrKeys == ExtraBits(c, delta)
  {
    if delta < c.minKeys {
      DivSmall(c.incrKeys - c.minKeys + delta, c.incrKeys);
    } else {
      var y, n := delta - c.minKeys, c.incrKeys;
      DivMod(y, n);
      assert (y / n + 1) * n == y / n * n + n;
      Quotient(y / n + 1, y % n, n);
    }
  }

  lemma DivAtLeastOne(x: nat, n: nat)
    requires x >= n > 0
    ensures x / n >= 1
  {
  }

  lemma DivSmall(x: nat, n: nat)
    requires x < n
    ensures x / n == 0
  {
  }

  lemma CodingBounds(c: Coding)
    requires IsCoding(c)
    ensures 0 < c.minKeys <= c.incrKeys + 2 && 7 <= c.incrKeys < 0x200_0000
  {
    Pow2Values();
    if c.minBits < 25 {
      Pow2Grows(c.minBits, 25);
    }
  }

  /** The prediction is exact for every delta unless incrKeys + 1 is a power of two. */
  lemma SetDeltaExactForAll(c: Coding)
    requires IsCoding(c)
    ensures c.minKeys <= c.incrKeys <==> c.incrKeys + 1 != Pow2(c.minBits - 1)
    ensures c.minKeys > c.incrKeys ==> c.minKeys == c.incrKeys + 2
  {
  }

  /** A mean delta for which it is not: seven values per extra bit, nine short
      codes, and a predicted size of hundreds of millions of bits for delta 0. */
  lemma SetDeltaWraps()
    ensures IsCoding(Coding(4, 9, 7)) && (836158 * 10 + 603160) / 1206321 == 7
    ensures |Encode(Coding(4, 9, 7), 0)| == 4 && SetDeltaKeyBits(Coding(4, 9, 7), 0) == 613566760
  {
    Pow2Values();
  }

  /** Two deltas never need fewer bits than their sum. */
  lemma SplitNeverShrinks(c: Coding, a: nat, b: nat)
    requires IsCoding(c)
    ensures |Encode(c, a + b)| < |Encode(c, a)| + |Encode(c, b)|
  {
    CodingBounds(c);
    EncodedSize(c, a);
    EncodedSize(c, b);
    EncodedSize(c, a + b);
    ExtraBitsOfSum(c, a, b);
  }

  lemma ExtraBitsOfSum(c: Coding, a: nat, b: nat)
    requires 0 < c.minKeys <= c.incrKeys + 2 && 7 <= c.incrKeys
    ensures ExtraBits(c, a + b) <= ExtraBits(c, a) + ExtraBits(c, b) + 2
  {
    var ea, eb := ExtraBits(c, a), ExtraBits(c, b);
    ExtraBitsBound(c, a);
    ExtraBitsBound(c, b);
    if a + b >= c.minKeys {
      SumBound(a, b, c.minKeys, ea, eb, c.incrKeys);
      DivBelow(a + b - c.minKeys, ea + eb + 2, c.incrKeys);
    }
  }

  lemma SumBound(a: nat, b: nat, min: nat, ea: nat, eb: nat, n: nat)
    requires a < min + ea * n && b < min + eb * n && min <= n + 2 && 7 <= n
    ensures a + b - min < (ea + eb + 2) * n
  {
    SumOfProducts(ea, eb, n);
  }

  lemma SumOfProducts(a: nat, b: nat, n: nat)
    ensures (a + b + 2) * n == a * n + b * n + 2 * n
  {
  }

  lemma ExtraBitsBound(c: Coding, d: nat)
    requires c.incrKeys > 0
    ensures d < c.minKeys + ExtraBits(c, d) * c.incrKeys
  {
    if d >= c.minKeys {
      var q := (d - c.minKeys) / c.incrKeys;
      assert d - c.minKeys == q * c.incrKeys + (d - c.minKeys) % c.incrKeys;
      assert (q + 1) * c.incrKeys == q * c.incrKeys + c.incrKeys;
    }
  }

  lemma DivBelow(x: nat, q: nat, n: nat)
    requires n > 0 && x < q * n
    ensures x / n < q
  {
    DivMod(x, n);
    MulCancel(x / n, q, n);
  }

  // ------------------------------------------- the code in memory

  /** A whole code starts at a bit offset of memory, with at least the three guard
      bytes behind it that the word reads need. */
  ghost predicate CodeAt(c: Coding, m: seq<Byte>, offset: nat)
  {
    && offset <= 8 * |m|
    && var d := Decode(c, Stream(m)[offset..]);
       d.Decoded? && (offset + d.bits + 7) / 8 + 3 <= |m|
  }

  /** Decode a delta a word at a time. */
  method DecodeDelta(c: Coding, m: array<Byte>, offset: nat) returns (delta: nat, keyBits: nat)
    requires IsCoding(c) && CodeAt(c, m[..], offset)
    ensures Decode(c, Stream(m[..])[offset..]) == Decoded(delta, keyBits)
  {
    hide Stream, Val, FirstOne, Pow2, Shr, And, LowMask;
    ghost var s := Stream(m[..])[offset..];
    var addr, shift := offset / 8, offset % 8;
    var data := Shr(LoadLE(m[..], addr, 4), shift);
    FirstWord(LoadLE(m[..], addr, 4), s, shift, c.minBits);
    delta := Val(And(data, LowMask(32, c.minBits)));
    ValPadded(s[..c.minBits], 32 - c.minBits);
    keyBits := c.minBits;
    if delta >= c.minKeys {
      data := Shr(data, c.minBits);
      var zeros;
      if data == Zeros(32) {
        zeros := ScanZeros(c, m, offset, addr + 4);
      } else {
        zeros := FirstOne(data);
        FirstOneIs(s[c.minBits..], zeros);
      }
      keyBits := c.minBits + zeros + 1;
      delta := delta + zeros * c.incrKeys;
    }
  }

  /** What the first word holds of a stream that starts shift bits into it. */
  lemma FirstWord(word: seq<bool>, s: seq<bool>, shift: nat, minBits: nat)
    requires |word| == 32 && shift < 8 && minBits <= 25 && 32 - shift <= |s|
    requires word[shift..] == s[..32 - shift]
    ensures And(Shr(word, shift), LowMask(32, minBits)) == s[..minBits] + Zeros(32 - minBits)
    ensures Shr(Shr(word, shift), minBits) == s[minBits..32 - shift] + Zeros(minBits + shift)
    ensures var data := Shr(Shr(word, shift), minBits);
      if data == Zeros(32) then forall i :: minBits <= i < 32 - shift ==> !s[i]
      else (FirstOne(data) < 32 - shift - minBits && s[minBits..][FirstOne(data)]
            && forall i :: 0 <= i < FirstOne(data) ==> !s[minBits..][i])
  {
    hide FirstOne;
    var data := Shr(Shr(word, shift), minBits);
    assert data == s[minBits..32 - shift] + Zeros(minBits + shift);
    assert forall i :: minBits <= i < 32 - shift ==> data[i - minBits] == s[i];
  }

  lemma IsZero(w: seq<bool>, k: nat)
    requires w == Zeros(|w|) && k < |w|
    ensures !w[k]
  {
  }

  lemma NoOneIn(s: seq<bool>, one: nat, from: nat, w: seq<bool>)
    requires from <= one < |s| && s[one] && from + |w| <= |s|
    requires w == s[from..from + |w|] == Zeros(|w|)
    ensures one >= from + |w|
  {
    if one < from + |w| {
      IsZero(s[from..from + |w|], one - from);
    }
  }

  /** Continue a run of zeros, that reaches a word boundary, in the words after it. */
  method ScanZeros(c: Coding, m: array<Byte>, offset: nat, start: nat) returns (zeros: nat)
    requires CodeAt(c, m[..], offset) && c.minBits <= 8 * start - offset
    requires var s := Stream(m[..])[offset..];
      8 * start <= 8 * m.Length && Val(s[..c.minBits]) >= c.minKeys &&
        forall i :: c.minBits <= i < 8 * start - offset ==> !s[i]
    ensures zeros == FirstOne(Stream(m[..])[offset..][c.minBits..])
  {
    hide Stream, Val, FirstOne;
    ghost var s := Stream(m[..])[offset..];
    ghost var t2 := FirstOne(s[c.minBits..]);
    var addr, keyBits := start, 8 * start - offset;
    assert s[c.minBits + t2];
    while LoadLE(m[..], addr, 4) == Zeros(32)
      invariant c.minBits <= keyBits <= c.minBits + t2 && 8 * addr == offset + keyBits
      decreases c.minBits + t2 - keyBits
    {
      NoOneIn(s, c.minBits + t2, keyBits, LoadLE(m[..], addr, 4));
      addr, keyBits := addr + 4, keyBits + 32;
    }
    var data := LoadLE(m[..], addr, 4);
    zeros := keyBits + FirstOne(data) - c.minBits;
    assert data == s[keyBits..keyBits + 32];
    FirstInWord(s, c.minBits, keyBits, data);
  }

  /** The first one behind some zeros is the first one of the next word. */
  lemma FirstInWord(s: seq<bool>, from: nat, at: nat, w: seq<bool>)
    requires from <= at && at + |w| <= |s| && w == s[at..at + |w|] && w != Zeros(|w|)
    requires at <= from + FirstOne(s[from..])
    ensures at + FirstOne(w) - from == FirstOne(s[from..])
  {
    hide FirstOne;
    SomeOne(w);
    var t, k := s[from..], FirstOne(w);
    forall i | 0 <= i < at + k - from
      ensures !t[i]
    {
      if from + i >= at {
        SameBit(s, from, at, w, i);
      }
    }
    SameBit(s, from, at, w, at + k - from);
    FirstOneIs(t, at + k - from);
  }

  lemma SomeOne(w: seq<bool>)
    requires w != Zeros(|w|)
    ensures FirstOne(w) < |w|
  {
    if FirstOne(w) == |w| {
      AllZeros(w);
    }
  }

  lemma AllZeros(w: seq<bool>)
    requires forall i :: 0 <= i < |w| ==> !w[i]
    ensures w == Zeros(|w|)
  {
  }

  lemma SameBit(s: seq<bool>, from: nat, at: nat, w: seq<bool>, i: nat)
    requires from <= at <= from + i < at + |w| <= |s| && w == s[at..at + |w|]
    ensures s[from..][i] == w[from + i - at]
  {
  }
}
