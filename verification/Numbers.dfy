/** Numbers as bits, least significant first. */
module Numbers {
  import opened Bits

  const UINT32_RANGE := 0x1_0000_0000
  const UINT64_RANGE := 0x1_0000_0000_0000_0000

  function Pow2(n: nat): (p: nat)
    ensures p > 0
  {
    if n == 0 then 1 else 2 * Pow2(n - 1)
  }

  lemma {:induction false} Pow2Add(a: nat, b: nat)
    ensures Pow2(a + b) == Pow2(a) * Pow2(b)
  {
    if a > 0 {
      Pow2Add(a - 1, b);
      assert Pow2(a + b) == 2 * Pow2(a - 1 + b);
    }
  }

  lemma {:induction false} Pow2Grows(a: nat, b: nat)
    requires a < b
    ensures 2 * Pow2(a) <= Pow2(b)
  {
    if a < b - 1 {
      Pow2Grows(a, b - 1);
    }
  }

  /** The value of a word. */
  function Val(b: seq<bool>): (v: nat)
  {
    if b == [] then 0 else (if b[0] then 1 else 0) + 2 * Val(b[1..])
  }

  /** The low n bits of a number. */
  function ToBits(v: nat, n: nat): (b: seq<bool>)
    ensures |b| == n
    decreases n
  {
    if n == 0 then [] else [v % 2 == 1] + ToBits(v / 2, n - 1)
  }

  lemma {:induction false} ValOfBits(v: nat, n: nat)
    requires v < Pow2(n)
    ensures Val(ToBits(v, n)) == v
    decreases n
  {
    if n > 0 {
      ValOfBits(v / 2, n - 1);
      assert ToBits(v, n)[1..] == ToBits(v / 2, n - 1);
    }
  }

  lemma {:induction false} BitsOfVal(b: seq<bool>)
    ensures Val(b) < Pow2(|b|) && ToBits(Val(b), |b|) == b
  {
    if b != [] {
      BitsOfVal(b[1..]);
      assert b == [b[0]] + b[1..];
    }
  }

  /** A value that fits in n bits has only zeros above them. */
  lemma {:induction false} ToBitsFits(v: nat, n: nat, width: nat)
    requires v < Pow2(n) && n <= width
    ensures ToBits(v, width) == ToBits(v, n) + Zeros(width - n)
    decreases n
  {
    if n > 0 {
      ToBitsFits(v / 2, n - 1, width - 1);
    } else if width > 0 {
      ToBitsZero(width);
    }
  }

  lemma {:induction false} ToBitsZero(width: nat)
    ensures ToBits(0, width) == Zeros(width)
  {
    if width > 0 {
      ToBitsZero(width - 1);
    }
  }

  /** Zeros above a word do not change its value. */
  lemma {:induction false} ValPadded(b: seq<bool>, n: nat)
    ensures Val(b + Zeros(n)) == Val(b)
    decreases |b| + n
  {
    if b == [] {
      if n > 0 {
        assert ([] + Zeros(n))[1..] == [] + Zeros(n - 1);
        ValPadded([], n - 1);
      }
    } else {
      assert (b + Zeros(n))[1..] == b[1..] + Zeros(n);
      ValPadded(b[1..], n);
    }
  }

  lemma FirstOneIs(s: seq<bool>, k: nat)
    requires k < |s| && s[k] && forall i :: 0 <= i < k ==> !s[i]
    ensures FirstOne(s) == k
  {
  }

  /** The index of the first set bit, or the length when there is none: ffs() - 1. */
  function FirstOne(s: seq<bool>): (k: nat)
    ensures k <= |s|
    ensures forall i :: 0 <= i < k ==> !s[i]
    ensures k < |s| ==> s[k]
  {
    if s == [] || s[0] then 0 else 1 + FirstOne(s[1..])
  }

  /** The number of bits needed for a value. */
  method ComputeBits(maxValue: nat) returns (bits: nat)
    ensures maxValue < Pow2(bits)
    ensures bits > 0 ==> Pow2(bits - 1) <= maxValue
  {
    bits := 0;
    var rest := maxValue;
    while rest > 0
      invariant rest * Pow2(bits) <= maxValue < (rest + 1) * Pow2(bits)
      invariant bits > 0 ==> Pow2(bits - 1) <= maxValue
    {
      HalfStep(rest, Pow2(bits), maxValue);
      rest := rest / 2;
      bits := bits + 1;
    }
  }

  lemma HalfStep(rest: nat, p: nat, v: nat)
    requires rest > 0 && p > 0 && rest * p <= v < (rest + 1) * p
    ensures rest / 2 * (2 * p) <= v < (rest / 2 + 1) * (2 * p) && p <= v
  {
    var h := rest / 2;
    assert rest == 2 * h || rest == 2 * h + 1;
    assert h * (2 * p) == 2 * h * p;
    assert (h + 1) * (2 * p) == (2 * h + 2) * p;
    assert rest * p >= 2 * h * p && (rest + 1) * p <= (2 * h + 2) * p by {
      MulMonotone(2 * h, rest, p);
      MulMonotone(rest + 1, 2 * h + 2, p);
    }
    MulMonotone(1, rest, p);
  }

  lemma MulMonotone(a: nat, b: nat, p: nat)
    requires a <= b
    ensures a * p <= b * p
  {
  }

  lemma MulCancel(a: nat, b: nat, p: nat)
    requires a * p < b * p
    ensures a < b
  {
    if a >= b {
      MulMonotone(b, a, p);
    }
  }

  lemma MulNext(a: nat, p: nat)
    ensures (a + 1) * p == a * p + p
  {
  }
}
