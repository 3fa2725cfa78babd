/** The rounding constants and the decoding of one response entry. */
module Rounding {
  import opened LinearAlgebra
  import opened Numerals

  /** 2^bits; the exponentiation panics at 32 bits. */
  function PlaintextSize(bits: nat): (r: u32)
    requires bits <= 31
  {
    Pow2Monotonic(bits, 31);
    Pow2Of32();
    Pow2(bits)
  }

  /** The modulus divided by the plaintext size, truncated to 32 bits. */
  function RoundingFactor(bits: nat): (r: u32)
    requires bits <= 31
  {
    M / PlaintextSize(bits) % M
  }

  function RoundingFloor(bits: nat): (r: u32)
    requires bits <= 31
  {
    RoundingFactor(bits) / 2
  }

  lemma FactorValues(bits: nat, p: nat, f: nat)
    requires 1 <= bits <= 31 && p == Pow2(bits) && f == Pow2(32 - bits)
    ensures p * f == M && p >= 2 && f < M
    ensures M / p == f && f % M == f
  {
    assert p * f == M && f < M && p >= 2 by {
      Pow2Adds(bits, 32 - bits);
      Pow2Of32();
      Pow2Monotonic(32 - bits, 31);
      Pow2Monotonic(1, bits);
    }
    QuotientExact(M, p, f);
    QuotientUnique(f, M, 0, f);
  }

  /** For 1 to 31 bits the factor is 2^(32 - bits) and tiles the modulus exactly. */
  lemma FactorTiles(bits: nat)
    requires 1 <= bits <= 31
    ensures RoundingFactor(bits) == Pow2(32 - bits)
    ensures PlaintextSize(bits) * RoundingFactor(bits) == M
    ensures RoundingFactor(bits) == 2 * RoundingFloor(bits) && RoundingFloor(bits) == Pow2(31 - bits)
    ensures PlaintextSize(bits) >= 2
  {
    FactorValues(bits, Pow2(bits), Pow2(32 - bits));
    assert Pow2(32 - bits) == 2 * Pow2(31 - bits);
  }

  /** Rounds an entry to the nearest multiple of the factor and drops the factor. */
  function Decode(bits: nat, unscaled: u32): (x: nat)
    requires 1 <= bits <= 31
  {
    FactorTiles(bits);
    Pow2Monotonic(1, 32 - bits);
    var factor := RoundingFactor(bits);
    DecodeQuotient(unscaled, factor);
    var scaled := unscaled / factor;
    var rounded := if unscaled % factor > RoundingFloor(bits) then scaled + 1 else scaled;
    DecodeQuotient(rounded, PlaintextSize(bits));
    rounded % PlaintextSize(bits)
  }

  lemma DecodeQuotient(x: nat, d: int)
    requires d > 0
    ensures x / d >= 0 && 0 <= x % d < d
  {
  }

  /** The representative of `e` modulo 2^32 nearest to 0. */
  function Centred(e: int): (c: int)
    ensures -(M / 2) < c <= M / 2
  {
    var r := e % M;
    if r > M / 2 then r - M else r
  }

  /** `e` is, up to wrap-around, within half a factor of 0, the upper end included. */
  predicate InWindow(bits: nat, e: int)
    requires bits <= 31
  {
    -(RoundingFloor(bits) as int) < Centred(e) <= RoundingFloor(bits)
  }

  /** How many factors lie between the quotient `q` and `x`, going around. */
  function Steps(p: int, q: int, x: int): (k: int)
  {
    if q >= x then q - x else q - x + p
  }

  /** The residue of an entry less a multiple of the factor. */
  lemma ResidueOfEntry(p: int, f: int, u: int, q: int, r: int, x: int)
    requires p > 0 && f > 0 && p * f == M && u == q * f + r && 0 <= r < f && 0 <= q < p && 0 <= x < p
    ensures (u - f * x) % M == Steps(p, q, x) * f + r
  {
    var k := Steps(p, q, x);
    assert k * f + r < M by {
      assert k <= p - 1;
      MulLe(k, p - 1, f);
      assert (p - 1) * f == M - f;
    }
    assert k * f >= 0 by { MulLe(0, k, f); }
    if q >= x {
      assert (q - x) * f == q * f - f * x;
      QuotientUnique(u - f * x, M, 0, k * f + r);
    } else {
      assert (q - x + p) * f == q * f - f * x + M;
      QuotientUnique(u - f * x, M, -1, k * f + r);
    }
  }

  /** Which residues are in the window: the first half step, or the last. */
  lemma WindowSteps(p: int, f: int, half: int, k: int, r: int)
    requires p >= 2 && f > 0 && p * f == M && f == 2 * half && 0 <= r < f && 0 <= k < p
    ensures var c := if k * f + r > M / 2 then k * f + r - M else k * f + r;
            -half < c <= half <==> (k == 0 && r <= half) || (k == p - 1 && r > half)
  {
    MulLe(2, p, f);
    assert (p - 1) * f == M - f;
    if k == 0 {
    } else if k == p - 1 {
    } else {
      MulLe(1, k, f);
      MulLe(k, p - 2, f);
      assert (p - 2) * f == M - 2 * f;
    }
  }

  lemma RoundedIs(p: int, q: int, up: bool, x: int)
    requires p >= 2 && 0 <= q < p && 0 <= x < p
    ensures (if up then q + 1 else q) % p == x <==> Steps(p, q, x) == if up then p - 1 else 0
  {
    var t := if up then q + 1 else q;
    if t == p {
      QuotientUnique(t, p, 1, 0);
    } else {
      QuotientUnique(t, p, 0, t);
    }
  }

  lemma RoundingOf(p: int, f: int, half: int, u: int, q: int, r: int, x: int)
    requires p >= 2 && f > 0 && p * f == M && f == 2 * half && u == q * f + r && 0 <= r < f && 0 <= q < p && 0 <= x < p
    ensures (if r > half then q + 1 else q) % p == x <==> -half < Centred(u - f * x) <= half
  {
    ResidueOfEntry(p, f, u, q, r, x);
    WindowSteps(p, f, half, Steps(p, q, x), r);
    RoundedIs(p, q, r > half, x);
  }

  lemma RoundingExact(p: int, f: int, half: int, u: int, x: int)
    requires p >= 2 && f > 0 && p * f == M && f == 2 * half && 0 <= u < M && 0 <= x < p
    ensures (if u % f > half then u / f + 1 else u / f) % p == x <==> -half < Centred(u - f * x) <= half
  {
    QuotientBelow(u, f, p);
    RoundingOf(p, f, half, u, u / f, u % f, x);
  }

  /** Decoding is exact: it returns `x` just when the entry is `x` factors plus noise in the window. */
  lemma DecodeExact(bits: nat, u: u32, x: nat)
    requires 1 <= bits <= 31 && x < PlaintextSize(bits)
    ensures Decode(bits, u) == x <==> InWindow(bits, u - RoundingFactor(bits) * x)
  {
    assert RoundingFactor(bits) > 0 by {
      FactorTiles(bits);
    }
    RoundingExact(PlaintextSize(bits), RoundingFactor(bits), RoundingFloor(bits), u, x) by {
      FactorTiles(bits);
    }
  }

  lemma QuotientBelow(u: int, f: int, p: int)
    requires f > 0 && 0 <= u < p * f
    ensures 0 <= u / f < p
  {
    var q := u / f;
    assert q * f <= u;
    if q >= p {
      MulLe(p, q, f);
    }
  }
}
