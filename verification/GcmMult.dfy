/** The multiplication circuits over GF(2^128): carry-less multiplication, the bit-serial
    multiplier, the Karatsuba multiplier with lane-wise reduction, and the table of powers. */
module GcmMult {
  import opened Bits
  import opened Gf128
  import opened LaneOps

  // ---------- carry-less multiplication ----------

  /** The contribution of wire `j` of `a` to coefficient `k` of the product. */
  predicate Term(a: seq<bool>, b: seq<bool>, k: int, j: int)
  {
    0 <= j < |a| && 0 <= k - j < |b| && a[j] && b[k - j]
  }

  /** The parity of the first `n` contributions to coefficient `k`. */
  predicate Sum(a: seq<bool>, b: seq<bool>, k: int, n: nat)
  {
    n > 0 && Sum(a, b, k, n - 1) != Term(a, b, k, n - 1)
  }

  lemma {:induction false} SumPeel(a: seq<bool>, b: seq<bool>, k: int, n: nat)
    requires 0 < n <= |a|
    ensures Sum(a, b, k, n) == (Term(a, b, k, 0) != Sum(a[1..], b, k - 1, n - 1))
  {
    if n > 1 {
      SumPeel(a, b, k, n - 1);
      assert Term(a, b, k, n - 1) == Term(a[1..], b, k - 1, n - 2);
    }
  }

  /** Contributions outside the overlap of the two operands do not count. */
  lemma {:induction false} SumOutside(a: seq<bool>, b: seq<bool>, k: int, lo: nat, hi: nat)
    requires lo <= hi
    requires forall j | lo <= j < hi :: !Term(a, b, k, j)
    ensures Sum(a, b, k, hi) == Sum(a, b, k, lo)
  {
    if lo < hi {
      SumOutside(a, b, k, lo, hi - 1);
    }
  }

  /** Coefficient `k` of the product is the parity of the pairs of wires that meet there. */
  lemma {:induction false} ClmulAt(a: seq<bool>, b: seq<bool>, k: nat)
    requires k < |a| + |b|
    ensures Clmul(a, b)[k] == Sum(a, b, k, |a|)
  {
    if a != [] {
      SumPeel(a, b, k, |a|);
      if k > 0 {
        ClmulAt(a[1..], b, k - 1);
      } else {
        SumOutside(a[1..], b, -1, 0, |a| - 1);
      }
    }
  }

  method Pclmulqdq(a: seq<bool>, b: seq<bool>, c: array<bool>)
    requires |a| == |b| == 64 && c.Length == 128
    modifies c
    ensures c[..] == Clmul(a, b)
  {
    for i := 0 to 64
      invariant forall k | 0 <= k < i :: c[k] == Sum(a, b, k, 64)
    {
      var tmp := a[0] && b[i];
      for j := 1 to i + 1
        invariant tmp == Sum(a, b, i, j)
      {
        tmp := tmp != (a[j] && b[i - j]);
      }
      SumOutside(a, b, i, i + 1, 64);
      c[i] := tmp;
    }
    for i := 64 to 127
      invariant forall k | 0 <= k < i :: c[k] == Sum(a, b, k, 64)
    {
      SumOutside(a, b, i, 0, i - 63);
      var tmp := false;
      for j := i - 63 to 64
        invariant tmp == Sum(a, b, i, j)
      {
        tmp := tmp != (a[j] && b[i - j]);
      }
      c[i] := tmp;
    }
    SumOutside(a, b, 127, 0, 64);
    c[127] := false;
    forall k | 0 <= k < 128
      ensures c[k] == Clmul(a, b)[k]
    {
      ClmulAt(a, b, k);
    }
  }

  // ---------- bilinearity and Karatsuba recombination ----------

  lemma {:induction false} ClmulXorLeft(a: seq<bool>, a': seq<bool>, b: seq<bool>)
    requires |a| == |a'|
    ensures Clmul(Xor(a, a'), b) == Xor(Clmul(a, b), Clmul(a', b))
  {
    if a == [] {
      assert Xor(Zeros(|b|), Zeros(|b|)) == Zeros(|b|);
    } else {
      assert Xor(a, a')[1..] == Xor(a[1..], a'[1..]);
      ClmulXorLeft(a[1..], a'[1..], b);
    }
  }

  lemma {:induction false} ClmulXorRight(a: seq<bool>, b: seq<bool>, b': seq<bool>)
    requires |b| == |b'|
    ensures Clmul(a, Xor(b, b')) == Xor(Clmul(a, b), Clmul(a, b'))
  {
    if a == [] {
      assert Xor(Zeros(|b|), Zeros(|b|)) == Zeros(|b|);
    } else {
      ClmulXorRight(a[1..], b, b');
    }
  }

  /** Coefficient `i` of a polynomial, 0 outside its wires. */
  predicate Coef(c: seq<bool>, i: int)
  {
    0 <= i < |c| && c[i]
  }

  lemma ClmulStep(a: seq<bool>, b: seq<bool>, i: int)
    requires a != []
    ensures Coef(Clmul(a, b), i) == ((a[0] && Coef(b, i)) != Coef(Clmul(a[1..], b), i - 1))
  {
  }

  lemma {:induction false} ClmulConcatLeft(a0: seq<bool>, a1: seq<bool>, b: seq<bool>, i: int)
    ensures Coef(Clmul(a0 + a1, b), i) == (Coef(Clmul(a0, b), i) != Coef(Clmul(a1, b), i - |a0|))
  {
    if a0 == [] {
      assert [] + a1 == a1;
    } else {
      assert (a0 + a1)[1..] == a0[1..] + a1;
      ClmulStep(a0 + a1, b, i);
      ClmulStep(a0, b, i);
      ClmulConcatLeft(a0[1..], a1, b, i - 1);
    }
  }

  lemma {:induction false} ClmulConcatRight(a: seq<bool>, b0: seq<bool>, b1: seq<bool>, i: int)
    ensures Coef(Clmul(a, b0 + b1), i) == (Coef(Clmul(a, b0), i) != Coef(Clmul(a, b1), i - |b0|))
  {
    if a != [] {
      ClmulStep(a, b0 + b1, i);
      ClmulStep(a, b0, i);
      ClmulStep(a, b1, i - |b0|);
      ClmulConcatRight(a[1..], b0, b1, i - 1);
    }
  }

  /** The cross product obtained from three half-width products. */
  lemma KaratsubaMiddle(a0: seq<bool>, a1: seq<bool>, b0: seq<bool>, b1: seq<bool>)
    requires |a0| == |a1| == |b0| == |b1| == 64
    ensures Xor(Xor(Clmul(Xor(a1, a0), Xor(b1, b0)), Clmul(a0, b0)), Clmul(a1, b1)) ==
            Xor(Clmul(a0, b1), Clmul(a1, b0))
  {
    ClmulXorLeft(a1, a0, Xor(b1, b0));
    ClmulXorRight(a1, b1, b0);
    ClmulXorRight(a0, b1, b0);
  }

  /** Three half-width products recombine into the full 256-wire product. */
  lemma Karatsuba(a: Block, b: Block, mid: Block)
    requires mid == Xor(Clmul(a[..64], b[64..]), Clmul(a[64..], b[..64]))
    ensures Clmul(a, b) ==
            Xor(Clmul(a[..64], b[..64]), SlliSi128(mid, 8)) + Xor(Clmul(a[64..], b[64..]), SrliSi128(mid, 8))
  {
    var a0, a1, b0, b1 := a[..64], a[64..], b[..64], b[64..];
    assert a == a0 + a1 && b == b0 + b1;
    var lo, hi := Xor(Clmul(a0, b0), SlliSi128(mid, 8)), Xor(Clmul(a1, b1), SrliSi128(mid, 8));
    forall i | 0 <= i < 256
      ensures Clmul(a, b)[i] == (lo + hi)[i]
    {
      ClmulConcatLeft(a0, a1, b, i);
      ClmulConcatRight(a0, b0, b1, i);
      ClmulConcatRight(a1, b0, b1, i - 64);
      assert Coef(mid, i - 64) == (Coef(Clmul(a0, b1), i - 64) != Coef(Clmul(a1, b0), i - 64));
      assert i < 128 ==> Coef(mid, i - 64) == SlliSi128(mid, 8)[i];
      assert i >= 128 ==> Coef(mid, i - 64) == SrliSi128(mid, 8)[i - 128];
    }
  }

  // ---------- lane-wise reduction ----------

  /** Wire `j` of what multiplying by x^k pushes past wire 127. */
  predicate Over(k: nat, v: Block, j: int)
    requires k <= 128
  {
    0 <= j < k && v[128 - k + j]
  }

  lemma OverStep(k: nat, v: Block, j: int)
    requires 1 <= k <= 128
    ensures Over(k, v, j) == if j == 0 then v[128 - k] else Over(k - 1, v, j - 1)
  {
  }

  /** What falls past wire 127, times x^7 + x^2 + x + 1. */
  predicate Spread(k: nat, v: Block, i: int)
    requires k <= 128
  {
    (Over(k, v, i) != Over(k, v, i - 1)) != (Over(k, v, i - 2) != Over(k, v, i - 7))
  }

  lemma SpreadStep(k: nat, v: Block, i: nat)
    requires 1 <= k <= 128
    ensures Spread(k, v, i) == (Spread(k - 1, v, i - 1) != (v[128 - k] && i in {0, 1, 2, 7}))
  {
    OverStep(k, v, i);
    OverStep(k, v, i - 1);
    OverStep(k, v, i - 2);
    OverStep(k, v, i - 7);
  }

  /** Multiplication by a small power of x, wire by wire. */
  lemma {:induction false} MulXPowAt(k: nat, v: Block, i: nat)
    requires k <= 7 && i < 128
    ensures MulXPow(k, v)[i] == ((k <= i && v[i - k]) != Spread(k, v, i))
  {
    if k > 0 {
      var w := MulXPow(k - 1, v);
      assert w[127] == v[128 - k] by {
        MulXPowAt(k - 1, v, 127);
        assert !Spread(k - 1, v, 127);
      }
      assert MulX(w)[i] == ((0 < i && w[i - 1]) != (v[128 - k] && i in {0, 1, 2, 7})) by {
        TailAt(i);
      }
      SpreadStep(k, v, i);
      if i > 0 {
        MulXPowAt(k - 1, v, i - 1);
      }
    }
  }

  /** Wire `j` of everything the three shifts push past wire 127. */
  predicate Overflow(v: Block, j: int)
  {
    Over(1, v, j) != (Over(2, v, j) != Over(7, v, j))
  }

  lemma FoldAt(v: Block, i: nat)
    requires i < 128
    ensures Fold(v)[i] ==
            (((v[i] != (1 <= i && v[i - 1])) != ((2 <= i && v[i - 2]) != (7 <= i && v[i - 7]))) !=
             ((Overflow(v, i) != Overflow(v, i - 1)) != (Overflow(v, i - 2) != Overflow(v, i - 7))))
  {
    MulXPowAt(1, v, i);
    assert MulXPow(1, v) == MulX(v);
    MulXPowAt(2, v, i);
    MulXPowAt(7, v, i);
    var a, b, c, d := v[i], MulX(v)[i], MulXPow(2, v)[i], MulXPow(7, v)[i];
    assert Fold(v)[i] == ((a != b) != (c != d));
  }

  /** The reduction half of the Karatsuba multiplier. */
  function LaneReduce(lo: Block, hi: Block): (r: Block)
  {
    var mask := seq(32, _ => true) + Zeros(96);
    var spill := ShuffleEpi32(Carry(hi), 147);
    var folded := Xor(hi, And(mask, spill));
    var sum := Xor(Xor(lo, AndNot(mask, spill)), ShiftEpi32(true, folded, 1));
    Xor(folded, Xor(Xor(sum, ShiftEpi32(true, folded, 2)), ShiftEpi32(true, folded, 7)))
  }

  lemma RotateLanes(a: Block, i: nat)
    requires i < 128
    ensures ShuffleEpi32(a, 147)[i] == a[if i < 32 then i + 96 else i - 32]
  {
    var k := i / 32;
    assert Select(147, k) == if k == 0 then 3 else k - 1;
  }

  /** What the three lane shifts carry past the top of each lane. */
  function Carry(hi: Block): (r: Block)
  {
    Xor(Xor(ShiftEpi32(false, hi, 31), ShiftEpi32(false, hi, 30)), ShiftEpi32(false, hi, 25))
  }

  lemma CarryAt(hi: Block, k: nat)
    requires k < 128
    ensures Carry(hi)[k] == (((k % 32 < 1 && hi[k + 31]) != (k % 32 < 2 && hi[k + 30])) != (k % 32 < 7 && hi[k + 25]))
  {
    ShiftEpi32At(false, hi, 31, k);
    ShiftEpi32At(false, hi, 30, k);
    ShiftEpi32At(false, hi, 25, k);
  }

  lemma SameColumn(i: nat)
    ensures (i + 96) % 32 == i % 32
    ensures i >= 32 ==> (i - 32) % 32 == i % 32
    ensures i < 32 ==> i % 32 == i
  {
  }

  /** The carries after the lanes are rotated up by one: the top lane's come out at the bottom. */
  lemma SpillLow(hi: Block, i: nat)
    requires i < 32
    ensures ShuffleEpi32(Carry(hi), 147)[i] == Overflow(hi, i)
  {
    RotateLanes(Carry(hi), i);
    CarryAt(hi, i + 96);
    SameColumn(i);
  }

  lemma SpillHigh(hi: Block, i: nat)
    requires 32 <= i < 128
    ensures ShuffleEpi32(Carry(hi), 147)[i] ==
            (((i % 32 < 1 && hi[i - 1]) != (i % 32 < 2 && hi[i - 2])) != (i % 32 < 7 && hi[i - 7]))
  {
    RotateLanes(Carry(hi), i);
    CarryAt(hi, i - 32);
    SameColumn(i);
  }

  /** The lane-wise reduction computes the residue of the 256-wire polynomial. */
  lemma LaneReduceIsReduce(lo: Block, hi: Block)
    ensures LaneReduce(lo, hi) == Reduce(lo + hi)
  {
    ActConcat(lo, hi, ONE);
    ReduceShort(lo);
    ReduceShort(hi);
    assert lo + Zeros(0) == lo && hi + Zeros(0) == hi;
    MulX128(hi);
    forall i | 0 <= i < 128
      ensures LaneReduce(lo, hi)[i] == (lo[i] != Fold(hi)[i])
    {
      LaneReduceAt(lo, hi, i);
    }
  }

  lemma FoldedAt(hi: Block, folded: Block, j: nat)
    requires folded == Xor(hi, And(seq(32, _ => true) + Zeros(96), ShuffleEpi32(Carry(hi), 147)))
    requires j < 128
    ensures folded[j] == (hi[j] != (j < 32 && Overflow(hi, j)))
  {
    if j < 32 {
      SpillLow(hi, j);
    }
  }

  lemma LaneReduceAt(lo: Block, hi: Block, i: nat)
    requires i < 128
    ensures LaneReduce(lo, hi)[i] == (lo[i] != Fold(hi)[i])
  {
    var mask := seq(32, _ => true) + Zeros(96);
    var spill := ShuffleEpi32(Carry(hi), 147);
    var folded := Xor(hi, And(mask, spill));
    if 32 <= i {
      SpillHigh(hi, i);
    }
    forall j | 0 <= j < 128
      ensures folded[j] == (hi[j] != (j < 32 && Overflow(hi, j)))
    {
      FoldedAt(hi, folded, j);
    }
    ShiftEpi32At(true, folded, 1, i);
    ShiftEpi32At(true, folded, 2, i);
    ShiftEpi32At(true, folded, 7, i);
    FoldAt(hi, i);
  }

  // ---------- the multipliers ----------

  /** Karatsuba multiplication with lane-wise reduction. */
  method KaratsubaMult(a: Block, b: Block, c: array<bool>)
    requires c.Length == 128
    modifies c
    ensures c[..] == Mul(a, b)
  {
    var mask: Block := seq(32, _ => true) + Zeros(96);

    var buffer := new bool[128];
    Pclmulqdq(a[..64], b[..64], buffer);
    var tmp3: Block := buffer[..];
    Pclmulqdq(a[64..], b[64..], buffer);
    var tmp6: Block := buffer[..];

    var tmp4 := ShuffleEpi32(a, 78);
    var tmp5 := ShuffleEpi32(b, 78);
    tmp4 := XorSi128(tmp4, a);
    tmp5 := XorSi128(tmp5, b);
    SwapHalves(a);
    SwapHalves(b);
    KaratsubaMiddle(a[..64], a[64..], b[..64], b[64..]);
    Pclmulqdq(tmp4[..64], tmp5[..64], buffer);
    tmp4 := buffer[..];
    tmp4 := XorSi128(tmp4, tmp3);
    tmp4 := XorSi128(tmp4, tmp6);
    Karatsuba(a, b, tmp4);
    tmp5 := SlliSi128(tmp4, 8);
    tmp4 := SrliSi128(tmp4, 8);
    tmp3 := XorSi128(tmp3, tmp5);
    tmp6 := XorSi128(tmp6, tmp4);
    LaneReduceIsReduce(tmp3, tmp6);

    var tmp7 := ShiftEpi32(false, tmp6, 31);
    var tmp8 := ShiftEpi32(false, tmp6, 30);
    var tmp9 := ShiftEpi32(false, tmp6, 25);
    tmp7 := XorSi128(tmp7, tmp8);
    tmp7 := XorSi128(tmp7, tmp9);
    tmp8 := ShuffleEpi32(tmp7, 147);
    tmp7 := AndSi128(mask, tmp8);
    tmp8 := AndnotSi128(mask, tmp8);
    tmp3 := XorSi128(tmp3, tmp8);
    tmp6 := XorSi128(tmp6, tmp7);
    var tmp10 := ShiftEpi32(true, tmp6, 1);
    tmp3 := XorSi128(tmp3, tmp10);
    var tmp11 := ShiftEpi32(true, tmp6, 2);
    tmp3 := XorSi128(tmp3, tmp11);
    var tmp12 := ShiftEpi32(true, tmp6, 7);
    tmp3 := XorSi128(tmp3, tmp12);
    tmp3 := XorSi128(tmp6, tmp3);
    forall i | 0 <= i < 128 {
      c[i] := tmp3[i];
    }
    assert c[..] == tmp3;
  }

  lemma SwapHalves(a: Block)
    ensures Xor(ShuffleEpi32(a, 78), a)[..64] == Xor(a[64..], a[..64])
  {
    forall i | 0 <= i < 64
      ensures ShuffleEpi32(a, 78)[i] == a[64 + i]
    {
      assert Select(78, i / 32) == i / 32 + 2;
    }
  }

  /** Adding the next wire of `y` to a bit-serial product. */
  lemma SerialStep(y: Block, x: Block, i: nat)
    requires i < 128
    ensures Act(y[..i + 1], x) == Xor(Act(y[..i], x), Gate(y[i], MulXPow(i, x)))
  {
    assert y[..i + 1] == y[..i] + [y[i]];
    ActConcat(y[..i], [y[i]], x);
    assert Act([y[i]], x) == Gate(y[i], x) by {
      assert MulX(ZERO) == ZERO;
      assert Xor(Gate(y[i], x), ZERO) == Gate(y[i], x);
    }
    MulXPowGate(i, y[i], x);
  }

  /** A completed bit-serial product is the field product. */
  lemma SerialIsMul(y: Block, x: Block)
    ensures Act(y[..128], x) == Mul(x, y) == Mul(y, x)
  {
    assert y[..128] == y;
    MulIsAct(y, x);
    MulRing(x, y, x);
  }

  /** Xors the wires of `v`, gated by the wire `bit`, into `z`. */
  method AccumulateGated(z: array<bool>, v: array<bool>, bit: bool)
    requires z != v && z.Length == v.Length == 128
    modifies z
    ensures z[..] == Xor(old(z[..]), Gate(bit, v[..]))
  {
    var tmpV := new bool[128];
    for j := 0 to 128
      invariant z[..] == old(z[..])
      invariant forall k | 0 <= k < j :: tmpV[k] == (v[k] && bit)
    {
      tmpV[j] := v[j] && bit;
    }
    for j := 0 to 128
      invariant forall k | 0 <= k < 128 :: tmpV[k] == (v[k] && bit)
      invariant forall k | 0 <= k < j :: z[k] == (old(z[k]) != (v[k] && bit))
      invariant forall k | j <= k < 128 :: z[k] == old(z[k])
    {
      z[j] := z[j] != tmpV[j];
    }
  }

  /** Shifts `v` up by one wire and folds the wire that falls off back in through `R`. */
  method ShiftReduce(v: array<bool>, R: array<bool>)
    requires v != R && v.Length == R.Length == 128
    requires R[..] == TAIL
    modifies v
    ensures v[..] == MulX(old(v[..]))
  {
    var tmpR := new bool[128];
    for j := 0 to 8
      invariant v[..] == old(v[..]) && R[..] == TAIL
      invariant forall k | 0 <= k < j :: tmpR[k] == (v[127] && R[k])
    {
      tmpR[j] := v[127] && R[j];
    }
    // Rotate by one and zero the lowest wire.
    forall j | 0 <= j < 128 {
      v[j] := if j == 0 then v[127] else v[j - 1];
    }
    v[0] := false;
    for j := 0 to 8
      invariant forall k | 0 <= k < 8 :: tmpR[k] == (old(v[127]) && TAIL[k])
      invariant forall k | 0 <= k < j :: v[k] == ((0 < k && old(v[k - 1])) != (old(v[127]) && TAIL[k]))
      invariant forall k | j <= k < 128 :: v[k] == (0 < k && old(v[k - 1]))
    {
      v[j] := v[j] != tmpR[j];
    }
    ghost var was := old(v[..]);
    forall k | 0 <= k < 128
      ensures v[k] == MulX(was)[k]
    {
      TailAt(k);
    }
  }

  /** The wires of the modulus below x^128. */
  method NewTail() returns (R: array<bool>)
    ensures fresh(R) && R.Length == 128 && R[..] == TAIL
  {
    R := new bool[128](_ => false);
    R[0], R[1], R[2], R[7] := true, true, true, true;
    forall i | 0 <= i < 128
      ensures R[i] == TAIL[i]
    {
      TailAt(i);
    }
  }

  method NewWires(x: Block) returns (v: array<bool>)
    ensures fresh(v) && v.Length == 128 && v[..] == x
  {
    v := new bool[128](i requires 0 <= i < 128 => x[i]);
  }

  method ClearWires(z: array<bool>)
    requires z.Length == 128
    modifies z
    ensures z[..] == ZERO
  {
    forall j | 0 <= j < 128 {
      z[j] := false;
    }
  }

  /** Bit-serial multiplication, without branches. */
  method NaiveMult(z: array<bool>, x: Block, y: Block)
    requires z.Length == 128
    modifies z
    ensures z[..] == Mul(x, y)
  {
    var v := NewWires(x);
    var R := NewTail();
    ClearWires(z);
    assert y[..0] == [];
    for i := 0 to 128
      invariant R[..] == TAIL
      invariant v[..] == MulXPow(i, x)
      invariant z[..] == Act(y[..i], x)
    {
      SerialStep(y, x, i);
      AccumulateGated(z, v, y[i]);
      ShiftReduce(v, R);
    }
    SerialIsMul(y, x);
  }

  // ---------- the table of powers ----------

  /** Row `i` of a square table of wires. */
  function Row(table: array2<bool>, i: nat): (r: Block)
    requires table.Length0 == table.Length1 == 128 && i < 128
    reads table
  {
    seq(128, j requires 0 <= j < 128 reads table => table[i, j])
  }

  /** Fills row `i` with x times row `i - 1`. */
  method NextRow(table: array2<bool>, i: nat)
    requires table.Length0 == table.Length1 == 128 && 1 <= i < 128
    modifies table
    ensures Row(table, i) == MulX(old(Row(table, i - 1)))
    ensures forall k | 0 <= k < 128 && k != i :: Row(table, k) == old(Row(table, k))
  {
    ghost var row := Row(table, i - 1);
    table[i, 0] := table[i - 1, 127];
    for j := 1 to 128
      invariant forall k, l | 0 <= k < 128 && k != i && 0 <= l < 128 :: table[k, l] == old(table[k, l])
      invariant table[i, 0] == row[127]
      invariant forall k | 1 <= k < j :: table[i, k] == row[k - 1]
    {
      table[i, j] := table[i - 1, j - 1];
    }
    table[i, 7] := table[i - 1, 6] != table[i - 1, 127];
    table[i, 2] := table[i - 1, 1] != table[i - 1, 127];
    table[i, 1] := table[i - 1, 0] != table[i - 1, 127];
    forall j | 0 <= j < 128
      ensures Row(table, i)[j] == MulX(row)[j]
    {
      TailAt(j);
    }
  }

  method FirstRow(table: array2<bool>, h: Block)
    requires table.Length0 == table.Length1 == 128
    modifies table
    ensures Row(table, 0) == h
  {
    for i := 0 to 128
      invariant forall k | 0 <= k < i :: table[0, k] == h[k]
    {
      table[0, i] := h[i];
    }
  }

  /** Fills the table of h * x^i by the multiply-by-x recurrence. */
  method ShiftTable(h: Block) returns (table: array2<bool>)
    ensures fresh(table) && table.Length0 == table.Length1 == 128
    ensures forall i | 0 <= i < 128 :: Row(table, i) == MulXPow(i, h)
  {
    table := new bool[128, 128]((i, j) => false);
    FirstRow(table, h);
    for i := 1 to 128
      invariant forall k | 0 <= k < i :: Row(table, k) == MulXPow(k, h)
    {
      NextRow(table, i);
    }
  }

  /** Xors row `i` of the table into block `b`, gated by wire `i` of block `b - 1`. */
  method AccumulateRow(table: array2<bool>, i: nat, b: nat, result: array<bool>)
    requires table.Length0 == table.Length1 == 128 && i < 128
    requires 1 <= b && 128 * b + 128 <= result.Length
    modifies result
    ensures BlockAt(result[..], b) ==
            Xor(old(BlockAt(result[..], b)), Gate(old(result[128 * (b - 1) + i]), Row(table, i)))
    ensures Outside(old(result[..]), result[..], b)
  {
    for j := 0 to 128
      invariant forall k | 0 <= k < 128 * b || 128 * b + j <= k < result.Length :: result[k] == old(result[k])
      invariant forall k | 128 * b <= k < 128 * b + j ::
                  result[k] == (old(result[k]) != (old(result[128 * (b - 1) + i]) && table[i, k - 128 * b]))
    {
      var tmp := table[i, j] && result[(b - 1) * 128 + i];
      result[b * 128 + j] := result[b * 128 + j] != tmp;
    }
  }

  /** `s` and `t` agree outside block `b`. */
  ghost predicate Outside(s: seq<bool>, t: seq<bool>, b: nat)
  {
    && |s| == |t|
    && forall k | 0 <= k < |s| && (k < 128 * b || 128 * b + 128 <= k) :: t[k] == s[k]
  }

  lemma BlockOutside(s: seq<bool>, t: seq<bool>, b: nat, k: nat)
    requires Outside(s, t, b) && k != b && 128 * k + 128 <= |s|
    ensures BlockAt(t, k) == BlockAt(s, k)
  {
  }

  /** Multiplies block b - 1 by h into the zeroed block b. */
  method PowerStep(table: array2<bool>, h: Block, b: nat, result: array<bool>)
    requires table.Length0 == table.Length1 == 128
    requires forall i | 0 <= i < 128 :: Row(table, i) == MulXPow(i, h)
    requires 1 <= b && 128 * b + 128 <= result.Length
    requires BlockAt(result[..], b) == ZERO
    modifies result
    ensures BlockAt(result[..], b) == Mul(h, old(BlockAt(result[..], b - 1)))
    ensures Outside(old(result[..]), result[..], b)
  {
    ghost var before := result[..];
    ghost var prev := BlockAt(before, b - 1);
    for i := 0 to 128
      invariant Outside(before, result[..], b)
      invariant BlockAt(result[..], b) == Act(prev[..i], h)
    {
      SerialStep(prev, h, i);
      assert result[..][128 * (b - 1) + i] == prev[i];
      AccumulateRow(table, i, b, result);
    }
    SerialIsMul(prev, h);
  }

  /** The first `b` blocks are powers of h, the others zero. */
  ghost predicate PowersUpTo(s: seq<bool>, h: Block, b: nat)
  {
    forall k | 0 <= k && 128 * k + 128 <= |s| :: BlockAt(s, k) == if k < b then Power(h, k + 1) else ZERO
  }

  lemma NextPower(s: seq<bool>, t: seq<bool>, h: Block, b: nat)
    requires 1 <= b && 128 * b + 128 <= |s|
    requires PowersUpTo(s, h, b) && Outside(s, t, b)
    requires BlockAt(t, b) == Mul(h, BlockAt(s, b - 1))
    ensures PowersUpTo(t, h, b + 1)
  {
    forall k | 0 <= k && 128 * k + 128 <= |t|
      ensures BlockAt(t, k) == if k < b + 1 then Power(h, k + 1) else ZERO
    {
      if k != b {
        BlockOutside(s, t, b, k);
      }
    }
  }

  /** Writes h in the first block and zero in the others. */
  method FirstPower(h: Block, result: array<bool>)
    requires 128 <= result.Length
    modifies result
    ensures PowersUpTo(result[..], h, 1)
  {
    forall i | 0 <= i < result.Length {
      result[i] := false;
    }
    forall i | 0 <= i < 128 {
      result[i] := h[i];
    }
    assert Power(h, 1) == h by {
      assert Power(h, 0) == ONE;
      MulRing(h, ONE, ONE);
    }
    assert BlockAt(result[..], 0) == h;
    forall k | 1 <= k && 128 * k + 128 <= result.Length
      ensures BlockAt(result[..], k) == ZERO
    {
    }
  }

  /** Writes the powers h, h^2, ..., h^n, one block each. */
  method Powers(h: Block, n: nat, result: array<bool>)
    requires 1 <= n && result.Length == 128 * n
    modifies result
    ensures forall k | 0 <= k < n :: BlockAt(result[..], k) == Power(h, k + 1)
  {
    var table := ShiftTable(h);
    FirstPower(h, result);
    for b := 1 to n
      invariant forall i | 0 <= i < 128 :: Row(table, i) == MulXPow(i, h)
      invariant PowersUpTo(result[..], h, b)
    {
      ghost var was := result[..];
      PowerStep(table, h, b, result);
      NextPower(was, result[..], h, b);
    }
  }
}
