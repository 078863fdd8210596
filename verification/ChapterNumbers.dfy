/** Chapter numbers in the master index (uds/masterIndex005.c). Only the low bits
    of a virtual chapter number are stored, and expired entries are removed lazily,
    when their list is next searched. */
module ChapterNumbers {
  import opened Numbers
  import opened DeltaCode

  /** A range of chapters to flush, as stored chapter numbers. The modulus is
      chapterMask + 1. */
  datatype Range = Range(start: nat, count: nat, modulus: nat)

  ghost predicate IsModulus(n: nat) {
    exists bits: nat :: bits <= 32 && n == Pow2(bits)
  }

  /** How far a stored chapter is from the start of a range, in 32-bit unsigned
      arithmetic with the chapter mask. */
  function Relative(r: Range, value: nat): (k: nat)
    requires r.modulus > 0
    ensures k < r.modulus
  {
    ((value - r.start) % UINT32_RANGE) % r.modulus
  }

  /** The virtual chapter of a stored chapter, in 64-bit unsigned arithmetic. */
  function ToVirtual(low: nat, value: nat, modulus: nat): (v: nat)
    requires modulus > 0
    ensures low <= v < low + modulus
  {
    low + ((value - low) % UINT64_RANGE) % modulus
  }

  lemma ModMod(x: int, m: nat, k: nat)
    requires m > 0 && k > 0
    ensures (x % (m * k)) % m == x % m
  {
    var n := m * k;
    var q := x / n;
    assert x == q * n + x % n;
    assert q * n == (q * k) * m;
    ModAdd(x % n, q * k, m);
  }

  lemma ModAdd(x: int, q: int, m: nat)
    requires m > 0
    ensures (x + q * m) % m == x % m
  {
    var y := x + q * m;
    assert x == (x / m) * m + x % m;
    assert y == (x / m + q) * m + x % m by {
      assert (x / m + q) * m == (x / m) * m + q * m;
    }
    ModUnique(y, x / m + q, x % m, m);
  }

  lemma ModUnique(y: int, q: int, r: nat, m: nat)
    requires r < m && y == q * m + r
    ensures y % m == r && y / m == q
  {
    var p, s := y / m, y % m;
    assert y == p * m + s && 0 <= s < m;
    if q > p {
      MulAtLeast(q - p, m);
      Distribute(q, p, m);
    } else if q < p {
      MulAtLeast(p - q, m);
      Distribute(p, q, m);
    }
  }

  lemma MulAtLeast(d: nat, m: nat)
    requires d >= 1
    ensures d * m >= m
  {
  }

  lemma Distribute(a: int, b: int, m: int)
    ensures (a - b) * m == a * m - b * m
  {
  }

  lemma ModulusDivides(modulus: nat, bits: nat)
    requires bits <= 32 && modulus == Pow2(bits)
    ensures exists k: nat :: k > 0 && UINT32_RANGE == modulus * k
    ensures exists k: nat :: k > 0 && UINT64_RANGE == modulus * k
  {
    Pow2Add(bits, 32 - bits);
    Pow2Add(bits, 64 - bits);
    Pow2Words();
    assert UINT32_RANGE == modulus * Pow2(32 - bits);
    assert UINT64_RANGE == modulus * Pow2(64 - bits);
  }

  lemma Pow2Words()
    ensures Pow2(32) == UINT32_RANGE && Pow2(64) == UINT64_RANGE
  {
    Pow2Values();
    Pow2Eight();
    Pow2Add(8, 24);
    Pow2Add(32, 32);
  }

  lemma Pow2Eight()
    ensures Pow2(8) == 256
  {
    Pow2Values();
    Pow2Add(4, 4);
  }

  lemma ModulusPositive(modulus: nat)
    requires IsModulus(modulus)
    ensures modulus > 0
  {
  }

  /** The unsigned wrap-around does not matter: the mask divides the word. */
  lemma WordMod32(x: int, modulus: nat)
    requires IsModulus(modulus) && modulus > 0
    ensures (x % UINT32_RANGE) % modulus == x % modulus
  {
    var bits: nat :| bits <= 32 && modulus == Pow2(bits);
    ModulusDivides(modulus, bits);
    var k: nat :| k > 0 && UINT32_RANGE == modulus * k;
    ModMod(x, modulus, k);
  }

  lemma WordMod64(x: int, modulus: nat)
    requires IsModulus(modulus) && modulus > 0
    ensures (x % UINT64_RANGE) % modulus == x % modulus
  {
    var bits: nat :| bits <= 32 && modulus == Pow2(bits);
    ModulusDivides(modulus, bits);
    var k: nat :| k > 0 && UINT64_RANGE == modulus * k;
    ModMod(x, modulus, k);
  }

  /** The difference of two chapters, when it fits, is what their low bits give. */
  lemma LowBits(c: nat, from: nat, modulus: nat)
    requires modulus > 0 && from <= c < from + modulus
    ensures (c % modulus - from) % modulus == c - from
    ensures (c % modulus - from % modulus) % modulus == c - from
  {
    var d := c - from;
    assert c == (c / modulus) * modulus + c % modulus;
    assert from == (from / modulus) * modulus + from % modulus;
    var q := c / modulus;
    ModUnique(c % modulus - from, -q, d, modulus);
    ModUnique(c % modulus - from % modulus, from / modulus - q, d, modulus);
  }
}
