/** Arithmetic in GF(2)[x] / (x^128 + x^7 + x^2 + x + 1).
    Wire i of a bundle is the coefficient of x^i. */
module Gf128 {
  import opened Bits

  const ZERO: Block := Zeros(128)

  /** The polynomial 1. */
  const ONE: Block := [true] + Zeros(127)

  /** x^7 + x^2 + x + 1, what x^128 reduces to. */
  const TAIL: Block := [true, true, true, false, false, false, false, true] + Zeros(120)

  /** The modulus x^128 + x^7 + x^2 + x + 1. */
  const MODULUS: seq<bool> := TAIL + [true]

  /** Multiplication by x, reduced. */
  function MulX(v: Block): (r: Block)
  {
    seq(128, i requires 0 <= i < 128 => (0 < i && v[i - 1]) != (v[127] && TAIL[i]))
  }

  /** Multiplication by x^k, reduced. */
  function MulXPow(k: nat, v: Block): (r: Block)
  {
    if k == 0 then v else MulX(MulXPow(k - 1, v))
  }

  /** The polynomial `c`, of any length, acting on `v`: the sum of c[i] * x^i * v. */
  function Act(c: seq<bool>, v: Block): (r: Block)
  {
    if c == [] then ZERO else Xor(Gate(c[0], v), MulX(Act(c[1..], v)))
  }

  /** The residue of a polynomial of any length. */
  function Reduce(c: seq<bool>): (r: Block)
  {
    Act(c, ONE)
  }

  /** The unreduced product of two polynomials, on |a| + |b| wires. */
  function Clmul(a: seq<bool>, b: seq<bool>): (c: seq<bool>)
    ensures |c| == |a| + |b|
  {
    if a == [] then Zeros(|b|)
    else Xor(Gate(a[0], b) + Zeros(|a|), [false] + Clmul(a[1..], b))
  }

  /** The field product. */
  function Mul(a: Block, b: Block): (r: Block)
  {
    Reduce(Clmul(a, b))
  }

  /** The n-th power of `h`. */
  function Power(h: Block, n: nat): (r: Block)
  {
    if n == 0 then ONE else Mul(h, Power(h, n - 1))
  }

  lemma TailAt(i: nat)
    requires i < 128
    ensures TAIL[i] <==> i in {0, 1, 2, 7}
  {
  }

  // ---------- MulX and Act are linear ----------

  lemma MulXLinear(a: Block, b: Block)
    ensures MulX(Xor(a, b)) == Xor(MulX(a), MulX(b))
  {
  }

  lemma MulXGate(g: bool, a: Block)
    ensures MulX(Gate(g, a)) == Gate(g, MulX(a))
  {
  }

  lemma {:induction false} ActXorRight(c: seq<bool>, a: Block, b: Block)
    ensures Act(c, Xor(a, b)) == Xor(Act(c, a), Act(c, b))
  {
    if c == [] {
      assert Xor(ZERO, ZERO) == ZERO;
    } else {
      ActXorRight(c[1..], a, b);
      MulXLinear(Act(c[1..], a), Act(c[1..], b));
      assert Gate(c[0], Xor(a, b)) == Xor(Gate(c[0], a), Gate(c[0], b));
      var p, q, r, s := Gate(c[0], a), Gate(c[0], b), MulX(Act(c[1..], a)), MulX(Act(c[1..], b));
      assert Xor(Xor(p, q), Xor(r, s)) == Xor(Xor(p, r), Xor(q, s));
    }
  }

  lemma {:induction false} ActXorLeft(c: seq<bool>, d: seq<bool>, v: Block)
    requires |c| == |d|
    ensures Act(Xor(c, d), v) == Xor(Act(c, v), Act(d, v))
  {
    if c == [] {
      assert Xor(ZERO, ZERO) == ZERO;
    } else {
      assert Xor(c, d)[1..] == Xor(c[1..], d[1..]);
      ActXorLeft(c[1..], d[1..], v);
      MulXLinear(Act(c[1..], v), Act(d[1..], v));
      assert Gate(c[0] != d[0], v) == Xor(Gate(c[0], v), Gate(d[0], v));
      var p, q, r, s := Gate(c[0], v), Gate(d[0], v), MulX(Act(c[1..], v)), MulX(Act(d[1..], v));
      assert Xor(Xor(p, q), Xor(r, s)) == Xor(Xor(p, r), Xor(q, s));
    }
  }

  lemma {:induction false} ActZeros(n: nat, v: Block)
    ensures Act(Zeros(n), v) == ZERO
  {
    if n > 0 {
      assert Zeros(n)[1..] == Zeros(n - 1);
      ActZeros(n - 1, v);
      assert MulX(ZERO) == ZERO;
      assert Xor(Gate(false, v), ZERO) == ZERO;
    }
  }

  lemma {:induction false} ActOnZero(c: seq<bool>)
    ensures Act(c, ZERO) == ZERO
  {
    if c != [] {
      ActOnZero(c[1..]);
      assert MulX(ZERO) == ZERO;
      assert Xor(Gate(c[0], ZERO), ZERO) == ZERO;
    }
  }

  lemma ActGateLeft(g: bool, c: seq<bool>, v: Block)
    ensures Act(Gate(g, c), v) == Gate(g, Act(c, v))
  {
    if g {
      assert Gate(true, c) == c && Gate(true, Act(c, v)) == Act(c, v);
    } else {
      assert Gate(false, c) == Zeros(|c|) && Gate(false, Act(c, v)) == ZERO;
      ActZeros(|c|, v);
    }
  }

  lemma {:induction false} ActMulX(c: seq<bool>, v: Block)
    ensures Act(c, MulX(v)) == MulX(Act(c, v))
  {
    if c == [] {
      assert MulX(ZERO) == ZERO;
    } else {
      ActMulX(c[1..], v);
      MulXGate(c[0], v);
      MulXLinear(Gate(c[0], v), MulX(Act(c[1..], v)));
    }
  }

  lemma {:induction false} ActMulXPow(c: seq<bool>, k: nat, v: Block)
    ensures Act(c, MulXPow(k, v)) == MulXPow(k, Act(c, v))
  {
    if k > 0 {
      ActMulX(c, MulXPow(k - 1, v));
      ActMulXPow(c, k - 1, v);
    }
  }

  lemma {:induction false} MulXPowGate(k: nat, g: bool, a: Block)
    ensures MulXPow(k, Gate(g, a)) == Gate(g, MulXPow(k, a))
  {
    if k > 0 {
      MulXPowGate(k - 1, g, a);
      MulXGate(g, MulXPow(k - 1, a));
    }
  }

  /** Acting by a concatenation: the upper part is shifted past the lower. */
  lemma {:induction false} ActConcat(c: seq<bool>, d: seq<bool>, v: Block)
    ensures Act(c + d, v) == Xor(Act(c, v), MulXPow(|c|, Act(d, v)))
  {
    if c == [] {
      assert [] + d == d;
      assert Xor(ZERO, Act(d, v)) == Act(d, v);
    } else {
      assert (c + d)[1..] == c[1..] + d;
      ActConcat(c[1..], d, v);
      var lo, hi := Act(c[1..], v), MulXPow(|c| - 1, Act(d, v));
      MulXLinear(lo, hi);
      var p, q, r := Gate(c[0], v), MulX(lo), MulX(hi);
      assert Xor(p, Xor(q, r)) == Xor(Xor(p, q), r);
    }
  }

  lemma ActPadded(c: seq<bool>, n: nat, v: Block)
    ensures Act(c + Zeros(n), v) == Act(c, v)
  {
    ActConcat(c, Zeros(n), v);
    ActZeros(n, v);
    ActOnZero([]);
    MulXPowZero(|c|);
    assert Xor(Act(c, v), ZERO) == Act(c, v);
  }

  lemma {:induction false} MulXPowZero(k: nat)
    ensures MulXPow(k, ZERO) == ZERO
  {
    if k > 0 {
      MulXPowZero(k - 1);
      assert MulX(ZERO) == ZERO;
    }
  }

  // ---------- reduction ----------

  /** A polynomial of degree below 128 is its own residue. */
  lemma {:induction false} ReduceShort(c: seq<bool>)
    requires |c| <= 128
    ensures Reduce(c) == c + Zeros(128 - |c|)
  {
    if c != [] {
      ReduceShort(c[1..]);
      assert Reduce(c)[0] == c[0];
      assert Reduce(c) == c + Zeros(128 - |c|);
    }
  }

  /** v * (x^7 + x^2 + x + 1). */
  function Fold(v: Block): (r: Block)
  {
    Xor(Xor(v, MulX(v)), Xor(MulXPow(2, v), MulXPow(7, v)))
  }

  lemma ActFold(c: seq<bool>, v: Block)
    ensures Act(c, Fold(v)) == Fold(Act(c, v))
  {
    ActXorRight(c, Xor(v, MulX(v)), Xor(MulXPow(2, v), MulXPow(7, v)));
    ActXorRight(c, v, MulX(v));
    ActXorRight(c, MulXPow(2, v), MulXPow(7, v));
    ActMulX(c, v);
    ActMulXPow(c, 2, v);
    ActMulXPow(c, 7, v);
  }

  /** x^k for k < 128 is a single wire. */
  lemma MonomialShort(k: nat)
    requires k < 128
    ensures MulXPow(k, ONE) == Zeros(k) + [true] + Zeros(127 - k)
  {
    var c := Zeros(k) + [true];
    ActConcat(Zeros(k), [true], ONE);
    ActZeros(k, ONE);
    ReduceShort([true]);
    assert Act([true], ONE) == ONE;
    assert Xor(ZERO, MulXPow(k, ONE)) == MulXPow(k, ONE);
    ReduceShort(c);
  }

  lemma TopTimesX(top: Block)
    requires top == Zeros(127) + [true]
    ensures MulX(top) == TAIL
  {
  }

  lemma FourMonomials(a: Block, b: Block, c: Block, d: Block)
    requires a == [true] + Zeros(127) && b == Zeros(1) + [true] + Zeros(126)
    requires c == Zeros(2) + [true] + Zeros(125) && d == Zeros(7) + [true] + Zeros(120)
    ensures Xor(Xor(a, b), Xor(c, d)) == TAIL
  {
    forall i | 0 <= i < 128
      ensures Xor(Xor(a, b), Xor(c, d))[i] == TAIL[i]
    {
      TailAt(i);
    }
  }

  lemma FoldOne()
    ensures MulXPow(128, ONE) == TAIL
    ensures Fold(ONE) == TAIL
  {
    var top := MulXPow(127, ONE);
    assert top == Zeros(127) + [true] by {
      MonomialShort(127);
      assert Zeros(127) + [true] + Zeros(0) == Zeros(127) + [true];
    }
    TopTimesX(top);
    MonomialShort(1);
    MonomialShort(2);
    MonomialShort(7);
    assert MulX(ONE) == MulXPow(1, ONE);
    FourMonomials(ONE, MulX(ONE), MulXPow(2, ONE), MulXPow(7, ONE));
  }

  /** x^128 = x^7 + x^2 + x + 1, applied to any element. */
  lemma MulX128(v: Block)
    ensures MulXPow(128, v) == Fold(v)
  {
    ReduceShort(v);
    assert v + Zeros(0) == v;
    ActMulXPow(v, 128, ONE);
    ActFold(v, ONE);
    FoldOne();
  }

  // ---------- commutation ----------

  lemma ActGateRight(c: seq<bool>, g: bool, v: Block)
    ensures Act(c, Gate(g, v)) == Gate(g, Act(c, v))
  {
    if g {
      assert Gate(true, v) == v && Gate(true, Act(c, v)) == Act(c, v);
    } else {
      assert Gate(false, v) == ZERO && Gate(false, Act(c, v)) == ZERO;
      ActOnZero(c);
    }
  }

  /** Polynomial actions commute. */
  lemma {:induction false} ActCommutes(c: seq<bool>, d: seq<bool>, v: Block)
    ensures Act(c, Act(d, v)) == Act(d, Act(c, v))
  {
    if c == [] {
      ActOnZero(d);
    } else {
      ActCommutes(c[1..], d, v);
      ActXorRight(d, Gate(c[0], v), MulX(Act(c[1..], v)));
      ActMulX(d, Act(c[1..], v));
      ActGateRight(d, c[0], v);
    }
  }

  /** Acting by a residue is acting by any polynomial with that residue. */
  lemma ActReduced(c: seq<bool>, v: Block)
    ensures Act(Reduce(c), v) == Act(c, v)
  {
    var r := Reduce(c);
    ReduceShort(r);
    ReduceShort(v);
    assert r + Zeros(0) == r && v + Zeros(0) == v;
    ActCommutes(r, v, ONE);
    ActCommutes(v, c, ONE);
  }

  /** The modulus annihilates every element. */
  lemma ActModulus(v: Block)
    ensures Act(MODULUS, v) == ZERO
  {
    FoldOne();
    ActReduced(TAIL, v);
    ActConcat(TAIL, [true], v);
    assert Act([true], v) == v;
    MulX128(v);
    ReduceShort(v);
    assert v + Zeros(0) == v;
    ReduceShort(TAIL);
    assert TAIL + Zeros(0) == TAIL;
    ActCommutes(TAIL, v, ONE);
    ActFold(v, ONE);
    assert Xor(Fold(v), Fold(v)) == ZERO;
  }

  // ---------- the unreduced product ----------

  /** Multiplying polynomials composes their actions. */
  lemma {:induction false} ActClmul(a: seq<bool>, b: seq<bool>, v: Block)
    ensures Act(Clmul(a, b), v) == Act(a, Act(b, v))
  {
    if a == [] {
      ActZeros(|b|, v);
    } else {
      var lo, hi := Gate(a[0], b) + Zeros(|a|), [false] + Clmul(a[1..], b);
      ActXorLeft(lo, hi, v);
      ActPadded(Gate(a[0], b), |a|, v);
      ActGateLeft(a[0], b, v);
      assert hi[1..] == Clmul(a[1..], b);
      ActClmul(a[1..], b, v);
      var rest := MulX(Act(a[1..], Act(b, v)));
      assert Xor(Gate(false, v), rest) == rest;
    }
  }

  /** The field product is one operand acting on the other. */
  lemma MulIsAct(a: Block, b: Block)
    ensures Mul(a, b) == Act(a, b)
  {
    ActClmul(a, b, ONE);
    ReduceShort(b);
    assert b + Zeros(0) == b;
  }

  /** The field product is commutative, associative, distributes over xor, and has unit 1. */
  lemma MulRing(a: Block, b: Block, c: Block)
    ensures Mul(a, b) == Mul(b, a)
    ensures Mul(Mul(a, b), c) == Mul(a, Mul(b, c))
    ensures Mul(a, Xor(b, c)) == Xor(Mul(a, b), Mul(a, c))
    ensures Mul(a, ONE) == a
  {
    ReduceShort(a);
    ReduceShort(b);
    assert a + Zeros(0) == a && b + Zeros(0) == b;
    MulIsAct(a, b);
    MulIsAct(b, a);
    ActCommutes(a, b, ONE);
    MulIsAct(Mul(a, b), c);
    ActReduced(Clmul(a, b), c);
    ActClmul(a, b, c);
    MulIsAct(b, c);
    MulIsAct(a, Mul(b, c));
    MulIsAct(a, c);
    MulIsAct(a, Xor(b, c));
    ActXorRight(a, b, c);
    MulIsAct(a, ONE);
  }

  // ---------- what the residue means ----------

  /** `r` is what is left of `c` after a multiple of the modulus is removed;
      both sides are written on |c| + 129 wires. */
  ghost predicate Remainder(c: seq<bool>, r: Block, q: seq<bool>)
  {
    |q| == |c| && c + Zeros(129) == Xor(r + Zeros(|c| + 1), Clmul(q, MODULUS))
  }

  /** The quotient of long division by the modulus. */
  function Quotient(c: seq<bool>): (q: seq<bool>)
    ensures |q| == |c|
  {
    if c == [] then [] else [Reduce(c[1..])[127]] + Quotient(c[1..])
  }

  /** One step of long division, at wire `i`. */
  lemma QuotientStep(c: seq<bool>, m: seq<bool>, i: nat)
    requires c != [] && |m| == |c| + 128
    requires c[1..] + Zeros(129) == Xor(Reduce(c[1..]) + Zeros(|c|), m)
    requires i < |c| + 129
    ensures (c + Zeros(129))[i] ==
            ((Reduce(c) + Zeros(|c| + 1))[i] !=
             ((Gate(Reduce(c[1..])[127], MODULUS) + Zeros(|c|))[i] != ([false] + m)[i]))
  {
    var r' := Reduce(c[1..]);
    if i > 0 {
      assert (c[1..] + Zeros(129))[i - 1] == ((r' + Zeros(|c|))[i - 1] != m[i - 1]);
      assert (c[1..] + Zeros(129))[i - 1] == (c + Zeros(129))[i];
      assert ([false] + m)[i] == m[i - 1];
    }
    if i < 128 {
      assert Reduce(c)[i] == ((c[0] && ONE[i]) != ((0 < i && r'[i - 1]) != (r'[127] && TAIL[i])));
    }
  }

  lemma {:induction false} QuotientRemainder(c: seq<bool>)
    ensures Remainder(c, Reduce(c), Quotient(c))
  {
    if c == [] {
      assert Clmul([], MODULUS) == Zeros(129);
      assert [] + Zeros(129) == Xor(ZERO + Zeros(1), Zeros(129));
    } else {
      QuotientRemainder(c[1..]);
      var m := Clmul(Quotient(c[1..]), MODULUS);
      assert Quotient(c)[1..] == Quotient(c[1..]);
      forall i | 0 <= i < |c| + 129
        ensures (c + Zeros(129))[i] == Xor(Reduce(c) + Zeros(|c| + 1), Clmul(Quotient(c), MODULUS))[i]
      {
        QuotientStep(c, m, i);
      }
    }
  }

  /** The residue is exactly the remainder of division by the modulus:
      the one polynomial of degree below 128 that differs from `c` by a multiple of it. */
  lemma ReduceIsRemainder(c: seq<bool>, r: Block)
    ensures Reduce(c) == r <==> exists q :: Remainder(c, r, q)
  {
    if Reduce(c) == r {
      QuotientRemainder(c);
      assert Remainder(c, r, Quotient(c));
    }
    if q :| Remainder(c, r, q) {
      ActPadded(c, 129, ONE);
      ActPadded(r, |c| + 1, ONE);
      ActXorLeft(r + Zeros(|c| + 1), Clmul(q, MODULUS), ONE);
      ActClmul(q, MODULUS, ONE);
      ActModulus(ONE);
      ActOnZero(q);
      ReduceShort(r);
      assert r + Zeros(0) == r;
      assert Xor(r, ZERO) == r;
    }
  }
}
