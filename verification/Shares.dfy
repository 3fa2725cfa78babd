/** The circuits that share the GHASH key and its powers, and what the shares are for. */
module Shares {
  import opened Bits
  import opened Gf128
  import opened GcmMult
  import opened Endian
  import opened Aes

  /** The GHASH key as the raw circuit produces it from the two key shares. */
  function HashKey(aes: Cipher, aliceKey: Block, bobKey: Block): (h: Block)
  {
    RawCircuit(aes, Xor(aliceKey, bobKey), ZERO)
  }

  /** What both multiplicative-share circuits reveal: the hash key times Bob's share,
      masked by Alice. Each party supplies 128 key wires and 128 share or mask wires. */
  function MultiplicativeShare(aes: Cipher, alice: seq<bool>, bob: seq<bool>): (r: Block)
    requires |alice| == |bob| == 256
  {
    Xor(Mul(HashKey(aes, alice[..128], bob[..128]), bob[128..]), alice[128..])
  }

  method MultiplicativeSharesNaive(aes: Cipher, alice: seq<bool>, bob: seq<bool>) returns (r: seq<bool>)
    requires |alice| == |bob| == 256
    ensures r == MultiplicativeShare(aes, alice, bob)
  {
    var key := XorWires(alice[..128], bob[..128]);
    var h := RawCircuit(aes, key, Zeros(128));
    var prod := new bool[128];
    NaiveMult(prod, h, bob[128..]);
    r := XorWires(prod[..], alice[128..]);
  }

  method MultiplicativeShares(aes: Cipher, alice: seq<bool>, bob: seq<bool>) returns (r: seq<bool>)
    requires |alice| == |bob| == 256
    ensures r == MultiplicativeShare(aes, alice, bob)
  {
    var key := XorWires(alice[..128], bob[..128]);
    var h := RawCircuit(aes, key, Zeros(128));
    var c := new bool[128];
    KaratsubaMult(h, bob[128..], c);
    r := XorWires(c[..], alice[128..]);
  }

  /** Xors wire 128 + i of both parties into wire i. */
  method MaskTable(endian: seq<bool>, alice: seq<bool>, bob: seq<bool>, out: array<bool>)
    requires out[..] == endian && |alice| == |bob| == 128 + out.Length
    modifies out
    ensures out[..] == Xor(endian, Xor(alice[128..], bob[128..]))
  {
    for i := 0 to out.Length
      invariant forall k | 0 <= k < i :: out[k] == (endian[k] != (alice[128..][k] != bob[128..][k]))
      invariant forall k | i <= k < out.Length :: out[k] == endian[k]
    {
      var tmp := alice[128 + i] != bob[128 + i];
      out[i] := out[i] != tmp;
    }
  }

  lemma DivideBlock(k: nat, i: nat)
    requires i < 128
    ensures (128 * k + i) / 8 == 16 * k + i / 8 && (128 * k + i) % 8 == i % 8
  {
  }

  lemma EndianBlock(s: seq<bool>, k: nat)
    requires |s| % 8 == 0 && 128 * k + 128 <= |s|
    ensures BlockAt(ChangeEndian(s), k) == ChangeEndian(BlockAt(s, k))
  {
    var b := BlockAt(s, k);
    forall i | 0 <= i < 128
      ensures ChangeEndian(s)[128 * k + i] == ChangeEndian(b)[i]
    {
      DivideBlock(k, i);
      assert s[128 * k + (i / 8 * 8 + 7 - i % 8)] == b[i / 8 * 8 + 7 - i % 8];
    }
  }

  /** Block `k` of a masked, reordered table. */
  lemma MaskedBlock(table: seq<bool>, r: seq<bool>, alice: seq<bool>, bob: seq<bool>, k: nat)
    requires |table| % 8 == 0 && |alice| == |bob| == 128 + |table|
    requires r == Xor(ChangeEndian(table), Xor(alice[128..], bob[128..]))
    requires 128 * k + 128 <= |table|
    ensures BlockAt(r, k) == Xor(ChangeEndian(BlockAt(table, k)), Xor(BlockAt(alice, k + 1), BlockAt(bob, k + 1)))
  {
    EndianBlock(table, k);
    var a, b, c, e := BlockAt(alice, k + 1), BlockAt(bob, k + 1), BlockAt(r, k), BlockAt(ChangeEndian(table), k);
    forall i | 0 <= i < 128
      ensures c[i] == (e[i] != (a[i] != b[i]))
    {
      assert alice[128..][128 * k + i] == a[i] && bob[128..][128 * k + i] == b[i];
      assert ChangeEndian(table)[128 * k + i] == e[i] && r[128 * k + i] == c[i];
    }
  }

  /** Block k of a revealed table is h^(k+1), its bits reordered within bytes and both masks on. */
  ghost predicate IsPowerTable(aes: Cipher, n: nat, alice: seq<bool>, bob: seq<bool>, r: seq<bool>)
    requires |alice| == |bob| == 128 + 128 * n
  {
    && |r| == 128 * n
    && forall k | 0 <= k < n :: BlockAt(r, k) ==
         Xor(ChangeEndian(Power(HashKey(aes, alice[..128], bob[..128]), k + 1)),
             Xor(BlockAt(alice, k + 1), BlockAt(bob, k + 1)))
  }

  method AdditiveShares(aes: Cipher, n: nat, alice: seq<bool>, bob: seq<bool>) returns (r: seq<bool>)
    requires 1 <= n && |alice| == |bob| == 128 + 128 * n
    ensures IsPowerTable(aes, n, alice, bob, r)
  {
    var key := XorWires(alice[..128], bob[..128]);
    var h := RawCircuit(aes, key, Zeros(128));
    var result := new bool[128 * n];
    Powers(h, n, result);
    var out := new bool[128 * n];
    var table := result[..];
    ChangeEndianInternal(table, out);
    MaskTable(ChangeEndian(table), alice, bob, out);
    r := out[..];
    forall k | 0 <= k < n
      ensures BlockAt(r, k) == Xor(ChangeEndian(Power(h, k + 1)), Xor(BlockAt(alice, k + 1), BlockAt(bob, k + 1)))
    {
      MaskedBlock(table, r, alice, bob, k);
    }
  }

  // ---------- which hash key the circuits compute ----------

  /** The hash key of GCM, section 7.1 of NIST SP 800-38D, in the field's bit order. */
  function GcmHashKey(aes: Cipher, key: Block): (h: Block)
  {
    ChangeEndian(aes(key, ZERO))
  }

  /** The circuits take the key bytes in the raw circuit's order: the hash key is that of the
      byte-reversed joined key. */
  lemma HashKeyIs(aes: Cipher, ka: Block, kb: Block)
    ensures HashKey(aes, ka, kb) == GcmHashKey(aes, ReverseBytes(Xor(ka, kb)))
  {
    assert ReverseBytes(ZERO) == ZERO;
  }

  /** Key shares that are byte-reversed on the way in give the hash key of GCM, for every cipher. */
  lemma HashKeyOfReversedShares(aes: Cipher, ka: Block, kb: Block)
    ensures HashKey(aes, ReverseBytes(ka), ReverseBytes(kb)) == GcmHashKey(aes, Xor(ka, kb))
  {
    HashKeyIs(aes, ReverseBytes(ka), ReverseBytes(kb));
    ReverseBytesXor(ka, kb);
    ReverseBytesTwice(Xor(ka, kb));
  }

  /** A cipher that returns its key. */
  function KeyItself(key: Block, pt: Block): (r: Block)
  {
    key
  }

  /** Key shares fed as they are give the hash key of GCM for every cipher exactly when the joined key
      reads the same with its bytes reversed. */
  lemma HashKeyIsGcmExactly(ka: Block, kb: Block)
    ensures (forall aes: Cipher :: HashKey(aes, ka, kb) == GcmHashKey(aes, Xor(ka, kb))) <==>
            ReverseBytes(Xor(ka, kb)) == Xor(ka, kb)
  {
    var k := Xor(ka, kb);
    forall aes: Cipher
      ensures HashKey(aes, ka, kb) == GcmHashKey(aes, ReverseBytes(k))
    {
      HashKeyIs(aes, ka, kb);
    }
    if HashKey(KeyItself, ka, kb) == GcmHashKey(KeyItself, k) {
      ChangeEndianTwice(k);
      ChangeEndianTwice(ReverseBytes(k));
    }
  }

  /** A key, 1 in its first byte and 0 in the others, on which the two hash keys differ: with a cipher
      that returns its key, they are the two orders of its bytes. */
  lemma HashKeyDiffers(ka: Block, kb: Block)
    requires ka == [true] + Zeros(127) && kb == Zeros(128)
    ensures HashKey(KeyItself, ka, kb) != GcmHashKey(KeyItself, Xor(ka, kb))
  {
    var k := Xor(ka, kb);
    HashKeyIs(KeyItself, ka, kb);
    ChangeEndianTwice(k);
    ChangeEndianTwice(ReverseBytes(k));
    assert k[0] && !ReverseBytes(k)[0];
  }

  /** What the multiplicative-share circuits reveal, wire by wire: with Alice's mask off, the hash key of the
      byte-reversed joined key times Bob's share. */
  lemma MultiplicativeShareWires(aes: Cipher, alice: seq<bool>, bob: seq<bool>, h: Block, i: nat)
    requires |alice| == |bob| == 256 && i < 128
    requires h == GcmHashKey(aes, ReverseBytes(Xor(alice[..128], bob[..128])))
    ensures (MultiplicativeShare(aes, alice, bob)[i] != alice[128 + i]) == Mul(h, bob[128..])[i]
  {
    HashKeyIs(aes, alice[..128], bob[..128]);
  }
}
