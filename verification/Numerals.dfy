/** Numbers on wires, in either bit order. */
module Numerals {
  import opened Bits

  /** 2^n. */
  function Pow2(n: nat): (p: nat)
    ensures p > 0
  {
    if n == 0 then 1 else 2 * Pow2(n - 1)
  }

  /** The low `n` bits of `w`, least significant first. */
  function NatBits(w: nat, n: nat): (r: seq<bool>)
    ensures |r| == n
  {
    if n == 0 then [] else [w % 2 == 1] + NatBits(w / 2, n - 1)
  }

  /** The number whose bits, least significant first, are `s`. */
  function BitsNat(s: seq<bool>): (w: nat)
  {
    if s == [] then 0 else (if s[0] then 1 else 0) + 2 * BitsNat(s[1..])
  }

  /** The low `n` bits of `w`, most significant first. */
  function BigEndian(w: nat, n: nat): (r: seq<bool>)
    ensures |r| == n
  {
    if n == 0 then [] else BigEndian(w / 2, n - 1) + [w % 2 == 1]
  }

  /** Bit `i` of `w`. */
  predicate Bit(w: nat, i: nat)
  {
    w / Pow2(i) % 2 == 1
  }

  lemma DoubleProduct(x: int, y: int)
    ensures 2 * (x * y) == (2 * x) * y
  {
  }

  lemma {:induction false} Pow2Adds(m: nat, n: nat)
    ensures Pow2(m + n) == Pow2(m) * Pow2(n)
  {
    if m > 0 {
      Pow2Adds(m - 1, n);
      DoubleProduct(Pow2(m - 1), Pow2(n));
    }
  }

  lemma {:induction false} Pow2Monotonic(m: nat, n: nat)
    requires m <= n
    ensures Pow2(m) <= Pow2(n)
  {
    if m < n {
      Pow2Monotonic(m, n - 1);
    }
  }

  lemma Pow2Of8()
    ensures Pow2(8) == 256
  {
    assert Pow2(4) == 16;
    Pow2Adds(4, 4);
  }

  lemma Pow2Of32()
    ensures Pow2(16) == 0x1_0000 && Pow2(31) == 0x8000_0000 && Pow2(32) == 0x1_0000_0000
  {
    Pow2Of8();
    Pow2Adds(8, 8);
    Pow2Adds(16, 16);
    assert Pow2(32) == 2 * Pow2(31);
  }

  lemma DivTwice(w: nat, p: nat)
    requires p > 0
    ensures w / (2 * p) == w / 2 / p
  {
    var q, r := w / 2 / p, w / 2 % p;
    assert w == 2 * (q * p + r) + w % 2;
    assert w == q * (2 * p) + (2 * r + w % 2);
    QuotientUnique(w, 2 * p, q, 2 * r + w % 2);
  }

  lemma DoubleMod(w: nat, p: nat)
    requires p > 0
    ensures w % (2 * p) == 2 * (w / 2 % p) + w % 2
  {
    var q, r := w / 2 / p, w / 2 % p;
    assert w == q * (2 * p) + (2 * r + w % 2);
    QuotientUnique(w, 2 * p, q, 2 * r + w % 2);
  }

  lemma DivTwiceLast(w: nat, p: nat)
    requires p > 0
    ensures w / (2 * p) == w / p / 2
  {
    var q, r := w / p, w % p;
    assert w == q * p + r;
    assert q == 2 * (q / 2) + q % 2;
    assert w == (q / 2) * (2 * p) + (q % 2 * p + r);
    QuotientUnique(w, 2 * p, q / 2, q % 2 * p + r);
  }

  lemma MulAtLeast(k: int, d: int)
    requires k >= 1 && d > 0
    ensures k * d >= d
  {
  }

  lemma OneMore(x: int, n: int)
    ensures x * n == x * (n - 1) + x && n * x == (n - 1) * x + x
  {
  }

  lemma MulLe(a: int, b: int, f: int)
    requires a <= b && f >= 0
    ensures a * f <= b * f
  {
  }

  /** A multiple of `d` strictly between -d and d is 0. */
  lemma SmallMultiple(k: int, d: int)
    requires d > 0 && -d < k * d < d
    ensures k == 0
  {
    if k >= 1 {
      MulAtLeast(k, d);
    } else if k <= -1 {
      MulAtLeast(-k, d);
    }
  }

  lemma QuotientExact(w: int, d: int, q: int)
    requires d > 0 && w == q * d
    ensures w / d == q && w % d == 0
  {
    QuotientUnique(w, d, q, 0);
  }

  /** Division is determined by its remainder. */
  lemma QuotientUnique(w: int, d: int, q: int, r: int)
    requires d > 0 && w == q * d + r && 0 <= r < d
    ensures w / d == q && w % d == r
  {
    var q', r' := w / d, w % d;
    assert w == q' * d + r';
    assert (q' - q) * d == q' * d - q * d == r - r';
    SmallMultiple(q' - q, d);
  }

  lemma {:induction false} NatBitsAt(w: nat, n: nat, i: nat)
    requires i < n
    ensures NatBits(w, n)[i] == Bit(w, i)
  {
    if i > 0 {
      NatBitsAt(w / 2, n - 1, i - 1);
      DivTwice(w, Pow2(i - 1));
    }
  }

  lemma {:induction false} BigEndianAt(w: nat, n: nat, i: nat)
    requires i < n
    ensures BigEndian(w, n)[i] == Bit(w, n - 1 - i)
  {
    if i < n - 1 {
      BigEndianAt(w / 2, n - 1, i);
      DivTwice(w, Pow2(n - 2 - i));
    }
  }

  lemma {:induction false} BitsNatBound(s: seq<bool>)
    ensures BitsNat(s) < Pow2(|s|)
  {
    if s != [] {
      BitsNatBound(s[1..]);
    }
  }

  /** Reading back a numeral loses exactly what did not fit. */
  lemma {:induction false} BitsNatOfNatBits(w: nat, n: nat)
    ensures BitsNat(NatBits(w, n)) == w % Pow2(n)
  {
    if n > 0 {
      BitsNatOfNatBits(w / 2, n - 1);
      assert NatBits(w, n)[1..] == NatBits(w / 2, n - 1);
      DoubleMod(w, Pow2(n - 1));
    } else {
      assert w % 1 == 0;
    }
  }

  lemma {:induction false} NatBitsOfBitsNat(s: seq<bool>)
    ensures NatBits(BitsNat(s), |s|) == s
  {
    if s != [] {
      NatBitsOfBitsNat(s[1..]);
      assert s == [s[0]] + s[1..];
    }
  }

  /** A number that fits is recovered from its most-significant-first numeral. */
  lemma {:induction false} BigEndianInjective(v: nat, w: nat, n: nat)
    requires v < Pow2(n) && w < Pow2(n) && BigEndian(v, n) == BigEndian(w, n)
    ensures v == w
  {
    if n > 0 {
      var a, b := BigEndian(v / 2, n - 1), BigEndian(w / 2, n - 1);
      assert (a + [v % 2 == 1])[..n - 1] == a && (b + [w % 2 == 1])[..n - 1] == b;
      assert (a + [v % 2 == 1])[n - 1] == (b + [w % 2 == 1])[n - 1];
      BigEndianInjective(v / 2, w / 2, n - 1);
    }
  }

  /** High wires of a numeral wider than its number carry 0. */
  lemma {:induction false} BigEndianWide(w: nat, m: nat, n: nat)
    requires w < Pow2(n)
    ensures BigEndian(w, m + n) == Zeros(m) + BigEndian(w, n)
  {
    if n == 0 {
      BigEndianZero(m);
    } else {
      BigEndianWide(w / 2, m, n - 1);
    }
  }

  lemma {:induction false} BigEndianZero(m: nat)
    ensures BigEndian(0, m) == Zeros(m)
  {
    if m > 0 {
      BigEndianZero(m - 1);
    }
  }

  /** The entries of `arr`, each as `width` wires, least significant first. */
  function ArrBits(arr: seq<nat>, width: nat): (r: seq<bool>)
  {
    if arr == [] then [] else NatBits(arr[0], width) + ArrBits(arr[1..], width)
  }

  lemma {:induction false} ArrBitsLength(arr: seq<nat>, width: nat)
    ensures |ArrBits(arr, width)| == width * |arr|
  {
    if arr != [] {
      ArrBitsLength(arr[1..], width);
      OneMore(width, |arr|);
    }
  }

  /** The wires of a byte string. */
  function Octets(bytes: seq<nat>): (r: seq<bool>)
    ensures |r| == 8 * |bytes|
  {
    ArrBitsLength(bytes, 8);
    ArrBits(bytes, 8)
  }

  lemma {:induction false} ArrBitsSnoc(arr: seq<nat>, w: nat, width: nat)
    ensures ArrBits(arr + [w], width) == ArrBits(arr, width) + NatBits(w, width)
  {
    if arr == [] {
      assert [w][1..] == [] && [] + [w] == [w];
    } else {
      assert (arr + [w])[1..] == arr[1..] + [w];
      ArrBitsSnoc(arr[1..], w, width);
    }
  }

  /** `w` without its low `m` bits. */
  function ShiftRight(w: nat, m: nat): (r: nat)
  {
    if m == 0 then w else ShiftRight(w / 2, m - 1)
  }

  lemma {:induction false} NatBitsSplit(w: nat, m: nat, n: nat)
    ensures NatBits(w, m + n) == NatBits(w, m) + NatBits(ShiftRight(w, m), n)
  {
    if m > 0 {
      NatBitsSplit(w / 2, m - 1, n);
    }
  }

  lemma NatBitsPrefix(w: nat, n: nat, m: nat)
    requires n <= m
    ensures NatBits(w, m)[..n] == NatBits(w, n)
  {
    NatBitsSplit(w, n, m - n);
  }

  /** Nothing is left of `w` after `m` bits are dropped just when `w` is below 2^m. */
  lemma {:induction false} ShiftAllOut(w: nat, m: nat)
    ensures ShiftRight(w, m) == 0 <==> w < Pow2(m)
  {
    if m > 0 {
      ShiftAllOut(w / 2, m - 1);
    }
  }

  lemma {:induction false} ShiftMonotonic(v: nat, w: nat, m: nat)
    requires v <= w
    ensures ShiftRight(v, m) <= ShiftRight(w, m)
  {
    if m > 0 {
      ShiftMonotonic(v / 2, w / 2, m - 1);
    }
  }

  /** High wires of a numeral wider than its number carry 0. */
  lemma NatBitsWide(w: nat, n: nat, m: nat)
    requires ShiftRight(w, n) == 0
    ensures NatBits(w, n + m) == NatBits(w, n) + Zeros(m)
  {
    NatBitsSplit(w, n, m);
    NatBitsZero(m);
  }

  lemma {:induction false} NatBitsZero(m: nat)
    ensures NatBits(0, m) == Zeros(m)
  {
    if m > 0 {
      NatBitsZero(m - 1);
    }
  }

  lemma ShiftTwo(w: nat, m: nat)
    requires m >= 2
    ensures ShiftRight(w, m) == ShiftRight(w / 4, m - 2)
  {
    assert w / 2 / 2 == w / 4;
  }

  lemma ShiftFour(w: nat, m: nat)
    requires m >= 4
    ensures ShiftRight(w, m) == ShiftRight(w / 16, m - 4)
  {
    ShiftTwo(w, m);
    ShiftTwo(w / 4, m - 2);
    assert w / 4 / 4 == w / 16;
  }

  lemma ShiftByte(w: nat)
    ensures ShiftRight(w, 8) == w / 256
  {
    ShiftFour(w, 8);
    ShiftFour(w / 16, 4);
    assert w / 16 / 16 == w / 256;
  }

  /** The low eight bits of a number are those of its residue. */
  lemma NatBitsLow(w: nat)
    ensures NatBits(w % 256, 8) == NatBits(w, 8)
  {
    BitsNatOfNatBits(w, 8);
    BitsNatOfNatBits(w % 256, 8);
    Pow2Of8();
    NatBitsOfBitsNat(NatBits(w, 8));
    NatBitsOfBitsNat(NatBits(w % 256, 8));
  }

  lemma NatBitsNext(w: nat, n: nat)
    requires n > 0
    ensures NatBits(w, n)[0] == (w % 2 == 1) && NatBits(w, n)[1..] == NatBits(w / 2, n - 1)
  {
  }

  /** `v` as `n` bytes, most significant byte first, each byte's wires least significant first. */
  function BigEndianBytes(v: nat, n: nat): (r: seq<bool>)
    ensures |r| == 8 * n
  {
    if n == 0 then [] else BigEndianBytes(v / 256, n - 1) + NatBits(v, 8)
  }

  lemma {:induction false} ShiftTwice(w: nat, m: nat, n: nat)
    ensures ShiftRight(w, m + n) == ShiftRight(ShiftRight(w, m), n)
  {
    if m > 0 {
      ShiftTwice(w / 2, m - 1, n);
    }
  }

  lemma SliceBehind(a: seq<bool>, b: seq<bool>, lo: nat, hi: nat)
    requires lo <= hi <= |b|
    ensures (a + b)[|a| + lo..|a| + hi] == b[lo..hi]
  {
  }

  lemma SliceOfConcat(a: seq<bool>, b: seq<bool>, lo: nat, hi: nat)
    requires lo <= hi <= |a|
    ensures (a + b)[lo..hi] == a[lo..hi]
  {
  }

  /** Byte `i` of a big-endian byte string, which lies at `lo`, is what is left after `shift` bits. */
  lemma {:induction false} BigEndianByteAt(v: nat, n: nat, i: nat, lo: nat, shift: nat)
    requires i < n && lo == 8 * i && shift == 8 * (n - 1 - i)
    ensures BigEndianBytes(v, n)[lo..lo + 8] == NatBits(ShiftRight(v, shift), 8)
  {
    var a, b := BigEndianBytes(v / 256, n - 1), NatBits(v, 8);
    if i == n - 1 {
      SliceBehind(a, b, 0, 8);
      assert b[0..8] == b;
    } else {
      BigEndianByteAt(v / 256, n - 1, i, lo, shift - 8);
      SliceOfConcat(a, b, lo, lo + 8);
      ShiftTwice(v, 8, shift - 8);
      ShiftByte(v);
    }
  }

  /** Entry `i` of a row of entries. */
  lemma {:induction false} ArrBitsAt(arr: seq<nat>, width: nat, i: nat, lo: nat)
    requires i < |arr| && lo == width * i
    ensures lo + width <= |ArrBits(arr, width)| && ArrBits(arr, width)[lo..lo + width] == NatBits(arr[i], width)
  {
    var first, rest := NatBits(arr[0], width), ArrBits(arr[1..], width);
    if i == 0 {
      assert lo == 0;
      SliceOfConcat(first, rest, 0, width);
    } else {
      assert lo - width == width * (i - 1) >= 0 by { OneMore(width, i); }
      ArrBitsAt(arr[1..], width, i - 1, lo - width);
      SliceBehind(first, rest, lo - width, lo);
    }
  }

  lemma {:induction false} ArrBitsConcat(a: seq<nat>, b: seq<nat>, width: nat)
    ensures ArrBits(a + b, width) == ArrBits(a, width) + ArrBits(b, width)
  {
    if a == [] {
      assert a + b == b;
    } else {
      assert (a + b)[1..] == a[1..] + b;
      ArrBitsConcat(a[1..], b, width);
    }
  }

  /** The number that bytes, most significant first, stand for. */
  function BytesNat(s: seq<bool>): (v: nat)
    requires |s| % 8 == 0
    decreases |s|
  {
    if s == [] then 0 else 256 * BytesNat(s[..|s| - 8]) + BitsNat(s[|s| - 8..])
  }

  lemma {:induction false} BytesNatOfBytes(v: nat, n: nat)
    requires ShiftRight(v, 8 * n) == 0
    ensures BytesNat(BigEndianBytes(v, n)) == v
  {
    if n > 0 {
      var init, last := BigEndianBytes(v / 256, n - 1), NatBits(v, 8);
      assert ShiftRight(v / 256, 8 * (n - 1)) == 0 by {
        ShiftTwice(v, 8, 8 * (n - 1));
        ShiftByte(v);
      }
      BytesNatOfBytes(v / 256, n - 1);
      assert (init + last)[..8 * (n - 1)] == init && (init + last)[8 * (n - 1)..] == last;
      BitsNatOfNatBits(v, 8);
      Pow2Of8();
    }
  }
}
