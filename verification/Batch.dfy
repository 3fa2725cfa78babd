/** The batched keystream and encryption circuits, for any number of blocks. */
module Batch {
  import opened Bits
  import opened Gf128
  import opened Aes

  function KeyShare(x: seq<bool>): (r: Block)
    requires |x| >= 128
  {
    x[..128]
  }

  /** Counter block `blk`: the counters follow the key share. */
  function Counter(x: seq<bool>, blk: nat): (r: Block)
    requires |x| >= 128 + 128 * blk + 128
  {
    x[128 + 128 * blk..128 + 128 * blk + 128]
  }

  /** The parties agree on the first `n` counter blocks. */
  predicate CountersAgree(n: nat, alice: seq<bool>, bob: seq<bool>)
    requires |alice| >= 128 + 128 * n && |bob| >= 128 + 128 * n
  {
    forall blk | 0 <= blk < n :: Counter(alice, blk) == Counter(bob, blk)
  }

  // ---------- keystream ----------

  function Seed(n: nat, x: seq<bool>): (r: Block)
    requires |x| == 128 * n + 640
  {
    x[128 + 128 * n..128 * n + 256]
  }

  function CommitKey(n: nat, x: seq<bool>): (r: Block)
    requires |x| == 128 * n + 640
  {
    x[128 * n + 256..128 * n + 384]
  }

  function Commitment(n: nat, x: seq<bool>): (r: seq<bool>)
    requires |x| == 128 * n + 640
    ensures |r| == 256
  {
    x[128 * n + 384..]
  }

  /** Alice's seed opens Bob's commitment. */
  predicate SeedOpens(aes: Cipher, n: nat, alice: seq<bool>, bob: seq<bool>)
    requires |alice| == |bob| == 128 * n + 640
  {
    Hirose(aes, CommitKey(n, alice), Seed(n, alice), HIROSE_C) == Commitment(n, bob)
  }

  /** The commitment opens and every counter block is agreed. */
  predicate KeystreamOk(aes: Cipher, n: nat, alice: seq<bool>, bob: seq<bool>)
    requires |alice| == |bob| == 128 * n + 640
  {
    SeedOpens(aes, n, alice, bob) && CountersAgree(n, alice, bob)
  }

  /** Keystream block `blk` under the mask derived from Alice's seed. */
  function MaskedKeystream(aes: Cipher, n: nat, alice: seq<bool>, bob: seq<bool>, blk: nat): (r: Block)
    requires |alice| == |bob| == 128 * n + 640 && blk < n
  {
    Xor(aes(Xor(KeyShare(alice), KeyShare(bob)), Counter(alice, blk)), aes(Seed(n, alice), Counter(alice, blk)))
  }

  /** All or nothing: every masked keystream block, or only zeros. */
  predicate IsKeystreamBatch(aes: Cipher, n: nat, alice: seq<bool>, bob: seq<bool>, out: seq<bool>)
    requires |alice| == |bob| == 128 * n + 640
  {
    && |out| == 128 * n
    && forall blk | 0 <= blk < n :: BlockAt(out, blk) ==
         if KeystreamOk(aes, n, alice, bob) then MaskedKeystream(aes, n, alice, bob, blk) else ZERO
  }

  lemma CountersAgreeNext(n: nat, alice: seq<bool>, bob: seq<bool>)
    requires |alice| >= 256 + 128 * n && |bob| >= 256 + 128 * n
    ensures CountersAgree(n + 1, alice, bob) <==> CountersAgree(n, alice, bob) && Counter(alice, n) == Counter(bob, n)
  {
  }

  /** Writes the xor of two blocks at block position `blk`. */
  method WriteXor(out: array<bool>, blk: nat, a: Block, b: Block)
    requires 128 * blk + 128 <= out.Length
    modifies out
    ensures BlockAt(out[..], blk) == Xor(a, b)
    ensures forall k | 0 <= k < blk :: BlockAt(out[..], k) == old(BlockAt(out[..], k))
  {
    for j := 0 to 128
      invariant forall k | 0 <= k < 128 * blk :: out[k] == old(out[k])
      invariant forall k | 128 * blk <= k < 128 * blk + j :: out[k] == (a[k - 128 * blk] != b[k - 128 * blk])
    {
      out[128 * blk + j] := a[j] != b[j];
    }
  }

  /** Gates every wire of `out` by `ok`. */
  method GateAll(out: array<bool>, ok: bool)
    modifies out
    ensures forall k: nat | 128 * k + 128 <= out.Length ::
              BlockAt(out[..], k) == if ok then old(BlockAt(out[..], k)) else ZERO
  {
    for i := 0 to out.Length
      invariant forall k | 0 <= k < i :: out[k] == (ok && old(out[k]))
      invariant forall k | i <= k < out.Length :: out[k] == old(out[k])
    {
      out[i] := out[i] && ok;
    }
  }

  /** Opens the commitment once for the whole batch. */
  method OpenSeed(aes: Cipher, n: nat, alice: seq<bool>, bob: seq<bool>) returns (opens: bool)
    requires |alice| == |bob| == 128 * n + 640
    ensures opens == SeedOpens(aes, n, alice, bob)
  {
    var offS := 128 + 128 * n;
    var offR := offS + 128;
    var offD := offR + 128;
    var commit := HiroseCommit(aes, alice[offR..offR + 128], alice[offS..offS + 128], HIROSE_C);
    opens := Equals(commit, bob[offD..offD + 256]);
  }

  /** Derives every keystream block and keeps checking the counters. */
  method KeystreamBlocks(aes: Cipher, n: nat, key: Block, seed: Block, alice: seq<bool>, bob: seq<bool>,
                         opens: bool, out: array<bool>) returns (ok: bool)
    requires |alice| == |bob| == 128 * n + 640 && out.Length == 128 * n
    requires key == Xor(KeyShare(alice), KeyShare(bob)) && seed == Seed(n, alice)
    modifies out
    ensures ok == (opens && CountersAgree(n, alice, bob))
    ensures forall k | 0 <= k < n :: BlockAt(out[..], k) == MaskedKeystream(aes, n, alice, bob, k)
  {
    ok := opens;
    for blk := 0 to n
      invariant ok == (opens && CountersAgree(blk, alice, bob))
      invariant forall k | 0 <= k < blk :: BlockAt(out[..], k) == MaskedKeystream(aes, n, alice, bob, k)
    {
      var c := 128 + 128 * blk;
      CountersAgreeNext(blk, alice, bob);
      var same := Equals(alice[c..c + 128], bob[c..c + 128]);
      ok := ok && same;
      KeystreamBlock(aes, key, seed, alice[c..c + 128], blk, out);
    }
  }

  /** One masked keystream block. */
  method KeystreamBlock(aes: Cipher, key: Block, seed: Block, ctr: Block, blk: nat, out: array<bool>)
    requires 128 * blk + 128 <= out.Length
    modifies out
    ensures BlockAt(out[..], blk) == Xor(aes(key, ctr), aes(seed, ctr))
    ensures forall k | 0 <= k < blk :: BlockAt(out[..], k) == old(BlockAt(out[..], k))
  {
    var ks := Encrypt(aes, key, ctr);
    var b := Encrypt(aes, seed, ctr);
    WriteXor(out, blk, ks, b);
  }

  method DeriveKeystreamBatch(aes: Cipher, n: nat, alice: seq<bool>, bob: seq<bool>)
    returns (revealed: seq<bool>, okByte: seq<bool>)
    requires |alice| == |bob| == 128 * n + 640
    ensures okByte == seq(8, _ => KeystreamOk(aes, n, alice, bob))
    ensures IsKeystreamBatch(aes, n, alice, bob, revealed)
  {
    var key := XorWires(alice[..128], bob[..128]);
    var ok := true;
    var opens := OpenSeed(aes, n, alice, bob);
    ok := ok && opens;
    var out := new bool[128 * n];
    ok := KeystreamBlocks(aes, n, key, Seed(n, alice), alice, bob, ok, out);
    GateAll(out, ok);
    revealed := out[..];
    okByte := seq(8, _ => ok);
  }

  // ---------- encryption ----------

  function Plaintext(n: nat, x: seq<bool>, blk: nat): (r: Block)
    requires |x| == 128 + 256 * n && blk < n
  {
    x[128 + 128 * n + 128 * blk..128 + 128 * n + 128 * blk + 128]
  }

  /** Counter-mode ciphertext block `blk`. */
  function Ciphertext(aes: Cipher, n: nat, alice: seq<bool>, bob: seq<bool>, blk: nat): (r: Block)
    requires |alice| == |bob| == 128 + 256 * n && blk < n
  {
    Xor(aes(Xor(KeyShare(alice), KeyShare(bob)), Counter(alice, blk)), Plaintext(n, alice, blk))
  }

  /** All or nothing: every ciphertext block, or only zeros. */
  predicate IsEncBatch(aes: Cipher, n: nat, alice: seq<bool>, bob: seq<bool>, out: seq<bool>)
    requires |alice| == |bob| == 128 + 256 * n
  {
    && |out| == 128 * n
    && forall blk | 0 <= blk < n :: BlockAt(out, blk) ==
         if CountersAgree(n, alice, bob) then Ciphertext(aes, n, alice, bob, blk) else ZERO
  }

  method DeriveEncBatch(aes: Cipher, n: nat, alice: seq<bool>, bob: seq<bool>)
    returns (revealed: seq<bool>, okByte: seq<bool>)
    requires |alice| == |bob| == 128 + 256 * n
    ensures okByte == seq(8, _ => CountersAgree(n, alice, bob))
    ensures IsEncBatch(aes, n, alice, bob, revealed)
  {
    var key := XorWires(alice[..128], bob[..128]);
    var ok := true;
    var out := new bool[128 * n];
    for blk := 0 to n
      invariant ok == CountersAgree(blk, alice, bob)
      invariant forall k | 0 <= k < blk :: BlockAt(out[..], k) == Ciphertext(aes, n, alice, bob, k)
    {
      var c := 128 + 128 * blk;
      var p := 128 + 128 * n + 128 * blk;
      var same := Equals(alice[c..c + 128], bob[c..c + 128]);
      ok := ok && same;
      var ks := Encrypt(aes, key, alice[c..c + 128]);
      WriteXor(out, blk, ks, alice[p..p + 128]);
      CountersAgreeNext(blk, alice, bob);
    }
    GateAll(out, ok);
    revealed := out[..];
    okByte := seq(8, _ => ok);
  }

  // ---------- the two circuits together ----------

  /** Ciphertext, masked keystream and the mask rederived from the opened seed give back
      every plaintext block, when both circuits ran on the same key shares and counters. */
  lemma KeystreamDecrypts(aes: Cipher, n: nat, ksAlice: seq<bool>, ksBob: seq<bool>, keystream: seq<bool>,
                          encAlice: seq<bool>, encBob: seq<bool>, ciphertext: seq<bool>, blk: nat)
    requires |ksAlice| == |ksBob| == 128 * n + 640 && |encAlice| == |encBob| == 128 + 256 * n
    requires KeyShare(ksAlice) == KeyShare(encAlice) && KeyShare(ksBob) == KeyShare(encBob)
    requires forall b | 0 <= b < n :: Counter(ksAlice, b) == Counter(encAlice, b)
    requires KeystreamOk(aes, n, ksAlice, ksBob) && CountersAgree(n, encAlice, encBob)
    requires IsKeystreamBatch(aes, n, ksAlice, ksBob, keystream)
    requires IsEncBatch(aes, n, encAlice, encBob, ciphertext)
    requires blk < n
    ensures Xor(Xor(BlockAt(ciphertext, blk), BlockAt(keystream, blk)), aes(Seed(n, ksAlice), Counter(ksAlice, blk))) ==
            Plaintext(n, encAlice, blk)
  {
    var ks := aes(Xor(KeyShare(ksAlice), KeyShare(ksBob)), Counter(ksAlice, blk));
    var b := aes(Seed(n, ksAlice), Counter(ksAlice, blk));
    var p := Plaintext(n, encAlice, blk);
    assert Xor(Xor(Xor(ks, p), Xor(ks, b)), b) == p;
  }

  // ---------- the circuits, on the wires of their inputs ----------

  lemma CountersOnWires(n: nat, a: seq<bool>, b: seq<bool>)
    requires |a| >= 128 + 128 * n && |b| >= 128 + 128 * n
    ensures CountersAgree(n, a, b) <==> a[128..128 + 128 * n] == b[128..128 + 128 * n]
  {
    var u, v := a[128..128 + 128 * n], b[128..128 + 128 * n];
    forall blk | 0 <= blk < n
      ensures Counter(a, blk) == BlockAt(u, blk) && Counter(b, blk) == BlockAt(v, blk)
    {
      SliceOfSlice(a, 128, 128 + 128 * n, 128 * blk, 128 * blk + 128);
      SliceOfSlice(b, 128, 128 + 128 * n, 128 * blk, 128 * blk + 128);
    }
    if CountersAgree(n, a, b) {
      forall i | 0 <= i < 128 * n
        ensures u[i] == v[i]
      {
        var blk := i / 128;
        assert u[i] == BlockAt(u, blk)[i % 128] && v[i] == BlockAt(v, blk)[i % 128];
        assert Counter(a, blk) == Counter(b, blk);
      }
    }
  }

  /** The ok byte of the keystream circuit: all counter blocks are equal, and Alice's seed `s` under her key `r`
      gives the two halves of Bob's commitment. */
  lemma KeystreamOkOnWires(aes: Cipher, n: nat, a: seq<bool>, b: seq<bool>)
    requires |a| == |b| == 128 * n + 640
    ensures var s, r := a[128 + 128 * n..256 + 128 * n], a[256 + 128 * n..384 + 128 * n];
            KeystreamOk(aes, n, a, b) <==>
            && a[128..128 + 128 * n] == b[128..128 + 128 * n]
            && Xor(aes(r, s), s) == b[384 + 128 * n..512 + 128 * n]
            && Xor(aes(r, Xor(s, HIROSE_C)), Xor(s, HIROSE_C)) == b[512 + 128 * n..640 + 128 * n]
  {
    var s, r, d := a[128 + 128 * n..256 + 128 * n], a[256 + 128 * n..384 + 128 * n], b[384 + 128 * n..];
    CountersOnWires(n, a, b);
    HiroseHalves(aes, r, s, HIROSE_C, d);
    assert d[..128] == b[384 + 128 * n..512 + 128 * n] && d[128..] == b[512 + 128 * n..640 + 128 * n];
  }

  /** Every output wire of the keystream circuit: 0 unless everything is in order, and then the keystream of the
      joined key and of the seed on Alice's counter block. */
  lemma KeystreamOnWires(aes: Cipher, n: nat, a: seq<bool>, b: seq<bool>, out: seq<bool>, blk: nat, i: nat)
    requires |a| == |b| == 128 * n + 640 && IsKeystreamBatch(aes, n, a, b, out) && blk < n && i < 128
    ensures var s, r := a[128 + 128 * n..256 + 128 * n], a[256 + 128 * n..384 + 128 * n];
            var ctr := a[128 + 128 * blk..256 + 128 * blk];
            |out| == 128 * n && out[128 * blk + i] ==
            (&& a[128..128 + 128 * n] == b[128..128 + 128 * n]
             && Xor(aes(r, s), s) == b[384 + 128 * n..512 + 128 * n]
             && Xor(aes(r, Xor(s, HIROSE_C)), Xor(s, HIROSE_C)) == b[512 + 128 * n..640 + 128 * n]
             && aes(Xor(a[..128], b[..128]), ctr)[i] != aes(s, ctr)[i])
  {
    KeystreamOkOnWires(aes, n, a, b);
    assert out[128 * blk + i] == BlockAt(out, blk)[i];
    assert Counter(a, blk) == a[128 + 128 * blk..256 + 128 * blk];
  }

  /** Every output wire of the encryption circuit: 0 unless all counter blocks are equal, and then counter mode. */
  lemma EncOnWires(aes: Cipher, n: nat, a: seq<bool>, b: seq<bool>, out: seq<bool>, blk: nat, i: nat)
    requires |a| == |b| == 128 + 256 * n && IsEncBatch(aes, n, a, b, out) && blk < n && i < 128
    ensures |out| == 128 * n && out[128 * blk + i] ==
            (&& a[128..128 + 128 * n] == b[128..128 + 128 * n]
             && aes(Xor(a[..128], b[..128]), a[128 + 128 * blk..256 + 128 * blk])[i] !=
                a[128 + 128 * n + 128 * blk + i])
  {
    CountersOnWires(n, a, b);
    assert out[128 * blk + i] == BlockAt(out, blk)[i];
    assert Counter(a, blk) == a[128 + 128 * blk..256 + 128 * blk];
    assert Plaintext(n, a, blk)[i] == a[128 + 128 * n + 128 * blk + i];
  }
}
