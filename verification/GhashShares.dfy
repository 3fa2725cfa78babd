/** Local evaluation of GHASH from shares of the powers of the hash key. Blocks are in the field's bit order:
    wire i is the coefficient of x^i. */
module GhashShares {
  import opened Bits
  import opened Numerals
  import opened Endian
  import opened Gf128

  /** GHASH, by its chaining rule. */
  function Ghash(h: Block, xs: seq<Block>): (y: Block)
  {
    if xs == [] then ZERO
    else Mul(Xor(Ghash(h, xs[..|xs| - 1]), xs[|xs| - 1]), h)
  }

  /** One party's local part: block i of n weighted by its share of the power n - i. */
  function GhashShare(powers: seq<Block>, xs: seq<Block>): (y: Block)
    requires |xs| <= |powers|
  {
    if xs == [] then ZERO
    else Xor(Mul(xs[0], powers[|xs| - 1]), GhashShare(powers, xs[1..]))
  }

  /** The chaining rule unrolled from the first block. */
  lemma {:induction false} GhashFirst(h: Block, xs: seq<Block>)
    requires xs != []
    ensures Ghash(h, xs) == Xor(Mul(xs[0], Power(h, |xs|)), Ghash(h, xs[1..]))
  {
    var n := |xs|;
    var last := xs[n - 1];
    if n == 1 {
      assert Xor(ZERO, xs[0]) == xs[0];
      assert xs[..0] == [];
      MulRing(h, ONE, ONE);
      assert Power(h, 0) == ONE && Power(h, 1) == h;
      assert Xor(Mul(xs[0], h), ZERO) == Mul(xs[0], h);
    } else {
      var init := xs[..n - 1];
      GhashFirst(h, init);
      assert init[1..] == xs[1..][..n - 2];
      assert init[0] == xs[0];
      var p, q := Mul(xs[0], Power(h, n - 1)), Ghash(h, init[1..]);
      assert Xor(Xor(p, q), last) == Xor(p, Xor(q, last));
      var t := Xor(q, last);
      MulRing(h, p, t);
      MulRing(Xor(p, t), h, h);
      MulRing(p, h, h);
      MulRing(t, h, h);
      MulRing(xs[0], Power(h, n - 1), h);
      MulRing(Power(h, n - 1), h, h);
      assert Mul(p, h) == Mul(xs[0], Power(h, n));
    }
  }

  /** Local parts computed from shares of the powers add up to GHASH, so that neither
      party needs the hash key. */
  lemma {:induction false} GhashFromShares(h: Block, xs: seq<Block>, ours: seq<Block>, theirs: seq<Block>)
    requires |xs| <= |ours| == |theirs|
    requires forall k | 0 <= k < |ours| :: Xor(ours[k], theirs[k]) == Power(h, k + 1)
    ensures Xor(GhashShare(ours, xs), GhashShare(theirs, xs)) == Ghash(h, xs)
  {
    var n := |xs|;
    if n == 0 {
      assert Xor(ZERO, ZERO) == ZERO;
    } else {
      GhashFromShares(h, xs[1..], ours, theirs);
      GhashFirst(h, xs);
      var p, q := Mul(xs[0], ours[n - 1]), Mul(xs[0], theirs[n - 1]);
      MulRing(xs[0], ours[n - 1], theirs[n - 1]);
      var r, s := GhashShare(ours, xs[1..]), GhashShare(theirs, xs[1..]);
      assert Xor(Xor(p, r), Xor(q, s)) == Xor(Xor(p, q), Xor(r, s));
    }
  }

  /** A revealed block and the two masks behind it are shares of the power it hides:
      one party strips its mask, the other keeps its own. */
  lemma MaskedPowerIsShared(power: Block, revealed: Block, ours: Block, theirs: Block)
    requires revealed == Xor(ChangeEndian(power), Xor(ours, theirs))
    ensures Xor(ChangeEndian(Xor(revealed, ours)), ChangeEndian(theirs)) == power
  {
    assert Xor(Xor(revealed, ours), theirs) == ChangeEndian(power);
    ChangeEndianXor(Xor(revealed, ours), theirs);
    ChangeEndianTwice(power);
  }

  // ---------- the blocks of a record ----------

  /** A byte string cut into blocks, the last one filled up with zeros. */
  function Blocks(s: seq<bool>): (r: seq<Block>)
    ensures |r| == (|s| + 127) / 128
    decreases |s|
  {
    if s == [] then []
    else if |s| <= 128 then [s + Zeros(128 - |s|)]
    else [s[..128]] + Blocks(s[128..])
  }

  /** The two lengths in bits, 64 bits each, most significant byte first. */
  function LengthBlock(aadBits: nat, ciphertextBits: nat): (r: Block)
  {
    BigEndianBytes(aadBits, 8) + BigEndianBytes(ciphertextBits, 8)
  }

  /** What GHASH runs over in GCM, section 7.1 of NIST SP 800-38D: the additional data, the ciphertext
      and their lengths. */
  function Record(aad: seq<bool>, ciphertext: seq<bool>): (r: seq<Block>)
    ensures |r| == (|aad| + 127) / 128 + (|ciphertext| + 127) / 128 + 1
  {
    Blocks(aad) + Blocks(ciphertext) + [LengthBlock(|aad|, |ciphertext|)]
  }

  /** The same blocks in the field's bit order. */
  function Natural(xs: seq<Block>): (r: seq<Block>)
    ensures |r| == |xs|
  {
    seq(|xs|, i requires 0 <= i < |xs| => ChangeEndian(xs[i]))
  }

  /** Block `j` of a byte string lies at 128 * j. */
  lemma {:induction false} BlocksAt(s: seq<bool>, j: nat)
    requires 128 * j < |s|
    ensures Blocks(s)[j] == if 128 * j + 128 <= |s| then s[128 * j..128 * j + 128]
                            else s[128 * j..] + Zeros(128 * j + 128 - |s|)
    decreases |s|
  {
    if j == 0 {
      assert |s| <= 128 ==> s[0..] == s;
      assert |s| == 128 ==> s + Zeros(0) == s[0..128];
    } else {
      BlocksAt(s[128..], j - 1);
    }
  }

  /** Block `j` of a byte string, copied into a zeroed block. */
  method CopyBlock(s: seq<bool>, j: nat) returns (r: Block)
    requires 128 * j < |s|
    ensures r == Blocks(s)[j]
  {
    var b := new bool[128](_ => false);
    var off := 128 * j;
    var len := if |s| - off < 128 then |s| - off else 128;
    forall i | 0 <= i < len {
      b[i] := s[off + i];
    }
    r := b[..];
    BlocksAt(s, j);
  }

  /** A count on `n` bytes, most significant first. */
  method CountBytes(count: nat, n: nat) returns (r: seq<bool>)
    ensures r == BigEndianBytes(count, n)
  {
    ghost var all := BigEndianBytes(count, n);
    r := [];
    for i := 0 to n
      invariant r == all[..8 * i]
    {
      BigEndianByteAt(count, n, i, 8 * i, 8 * (n - 1 - i));
      assert all[..8 * i + 8] == all[..8 * i] + all[8 * i..8 * i + 8];
      r := r + NatBits(ShiftRight(count, 8 * (n - 1 - i)), 8);
    }
    assert all[..8 * n] == all;
  }

  /** Block `j` of a record, counting from 0. */
  method RecordBlock(aad: seq<bool>, ciphertext: seq<bool>, j: nat) returns (b: Block)
    requires j < |Record(aad, ciphertext)|
    ensures b == Record(aad, ciphertext)[j]
  {
    var aadBlocks, ctBlocks := (|aad| + 127) / 128, (|ciphertext| + 127) / 128;
    if j < aadBlocks {
      b := CopyBlock(aad, j);
    } else if j < aadBlocks + ctBlocks {
      b := CopyBlock(ciphertext, j - aadBlocks);
    } else {
      var hi := CountBytes(|aad|, 8);
      var lo := CountBytes(|ciphertext|, 8);
      b := hi + lo;
    }
  }

  /** Every block times its power: block i of n times the power n - i. */
  function Products(powers: seq<Block>, xs: seq<Block>): (r: seq<Block>)
    requires |xs| <= |powers|
    ensures |r| == |xs|
  {
    seq(|xs|, i requires 0 <= i < |xs| => Mul(xs[i], powers[|xs| - 1 - i]))
  }

  function XorAll(ps: seq<Block>): (r: Block)
  {
    if ps == [] then ZERO else Xor(ps[0], XorAll(ps[1..]))
  }

  lemma XorAllNext(ps: seq<Block>, j: nat, acc: Block)
    requires j < |ps|
    ensures Xor(Xor(acc, ps[j]), XorAll(ps[j + 1..])) == Xor(acc, XorAll(ps[j..]))
  {
    assert ps[j..][1..] == ps[j + 1..];
    XorAssociates(acc, ps[j], XorAll(ps[j + 1..]));
  }

  /** A local part is the sum of the products. */
  lemma {:induction false} ShareIsSum(powers: seq<Block>, xs: seq<Block>)
    requires |xs| <= |powers|
    ensures GhashShare(powers, xs) == XorAll(Products(powers, xs))
  {
    if xs != [] {
      ShareIsSum(powers, xs[1..]);
      assert Products(powers, xs)[1..] == Products(powers, xs[1..]);
    }
  }

  /** One party's part of the GHASH of a record, in GCM's bit order. */
  function RecordShare(powers: seq<Block>, aad: seq<bool>, ciphertext: seq<bool>): (r: Block)
    requires |Record(aad, ciphertext)| <= |powers|
  {
    ChangeEndian(GhashShare(powers, Natural(Record(aad, ciphertext))))
  }

  /** One party's part: each block weighted by its share of the matching power, in GCM's bit order. Refused
      when there are not enough powers. */
  method LocalShare(powers: seq<Block>, aad: seq<bool>, ciphertext: seq<bool>) returns (ok: bool, out: Block)
    requires |aad| % 8 == 0 && |ciphertext| % 8 == 0
    ensures ok <==> |Record(aad, ciphertext)| <= |powers|
    ensures ok ==> out == RecordShare(powers, aad, ciphertext)
  {
    var n := (|aad| + 127) / 128 + (|ciphertext| + 127) / 128 + 1;
    if n > |powers| {
      return false, ZERO;
    }
    ghost var xs := Natural(Record(aad, ciphertext));
    ghost var ps := Products(powers, xs);
    var acc: Block := ZERO;
    assert ps[0..] == ps && Xor(ZERO, XorAll(ps)) == XorAll(ps);
    for j := 0 to n
      invariant Xor(acc, XorAll(ps[j..])) == XorAll(ps)
    {
      var b := RecordBlock(aad, ciphertext, j);
      var product := Mul(ChangeEndian(b), powers[n - 1 - j]);
      assert product == ps[j];
      XorAllNext(ps, j, acc);
      acc := Xor(acc, product);
    }
    assert ps[n..] == [] && Xor(acc, ZERO) == acc;
    ShareIsSum(powers, xs);
    return true, ChangeEndian(acc);
  }

  // ---------- the blocks of a record, wire by wire ----------

  /** The data blocks: the additional data first, then the ciphertext, each with zeros past its end. */
  lemma DataWires(aad: seq<bool>, ciphertext: seq<bool>, j: nat, i: nat)
    requires i < 128 && j < (|aad| + 127) / 128 + (|ciphertext| + 127) / 128
    ensures var n := (|aad| + 127) / 128;
            var k := 128 * (if j < n then j else j - n) + i;
            Record(aad, ciphertext)[j][i] == if j < n then k < |aad| && aad[k] else k < |ciphertext| && ciphertext[k]
  {
    var n := (|aad| + 127) / 128;
    if j < n {
      BlockWires(aad, j, i);
    } else {
      BlockWires(ciphertext, j - n, i);
    }
  }

  lemma BlockWires(s: seq<bool>, j: nat, i: nat)
    requires 128 * j < |s| && i < 128
    ensures Blocks(s)[j][i] == (128 * j + i < |s| && s[128 * j + i])
  {
    BlocksAt(s, j);
  }

  /** The last block: byte i of the length of the additional data in bits, and then of the ciphertext's, most
      significant byte first. */
  lemma LengthWires(aad: seq<bool>, ciphertext: seq<bool>, i: nat)
    requires i < 8
    ensures var last := Record(aad, ciphertext)[|Record(aad, ciphertext)| - 1];
            && last[8 * i..8 * i + 8] == NatBits(ShiftRight(|aad|, 56 - 8 * i), 8)
            && last[64 + 8 * i..72 + 8 * i] == NatBits(ShiftRight(|ciphertext|, 56 - 8 * i), 8)
  {
    var all := Record(aad, ciphertext);
    assert all[|all| - 1] == LengthBlock(|aad|, |ciphertext|);
    TwoCounts(|aad|, |ciphertext|, all[|all| - 1], 8, i, 56 - 8 * i, 8 * i, 64 + 8 * i);
  }

  lemma TwoCounts(x: nat, y: nat, both: seq<bool>, n: nat, i: nat, shift: nat, lo: nat, hi: nat)
    requires both == BigEndianBytes(x, n) + BigEndianBytes(y, n) && i < n
    requires shift == 8 * (n - 1 - i) && lo == 8 * i && hi == 8 * n + 8 * i
    ensures both[lo..lo + 8] == NatBits(ShiftRight(x, shift), 8)
    ensures both[hi..hi + 8] == NatBits(ShiftRight(y, shift), 8)
  {
    var a, b := BigEndianBytes(x, n), BigEndianBytes(y, n);
    BigEndianByteAt(x, n, i, lo, shift);
    BigEndianByteAt(y, n, i, lo, shift);
    assert both[lo..lo + 8] == a[lo..lo + 8];
    assert both[hi..hi + 8] == b[lo..lo + 8];
  }

  /** The field's bit order: the bits of every byte reversed. */
  lemma NaturalWires(xs: seq<Block>, j: nat, q: nat, r: nat)
    requires j < |xs| && q < 16 && r < 8
    ensures Natural(xs)[j][8 * q + r] == xs[j][8 * q + 7 - r]
  {
    ChangeEndianAt(xs[j], q, r);
  }
}
