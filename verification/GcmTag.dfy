/** The GCM tag circuits. Each party supplies a key share, the initial counter block,
    a GHASH share, and one more block: a mask when tagging, the server's tag when verifying. */
module GcmTag {
  import opened Bits
  import opened Gf128
  import opened Endian
  import opened Aes
  import opened Shares
  import opened GhashShares

  /** The 128 wires of `x` from `at` on. */
  function Wires(x: seq<bool>, at: nat): (r: Block)
    requires at + 128 <= |x|
  {
    x[at..at + 128]
  }

  function KeyShare(x: seq<bool>): (r: Block)
    requires |x| >= 512
  {
    Wires(x, 0)
  }

  function Iv(x: seq<bool>): (r: Block)
    requires |x| >= 512
  {
    Wires(x, 128)
  }

  function TagShare(x: seq<bool>): (r: Block)
    requires |x| >= 512
  {
    Wires(x, 256)
  }

  function Mask(x: seq<bool>): (r: Block)
    requires |x| >= 512
  {
    Wires(x, 384)
  }

  function ServerTag(x: seq<bool>): (r: Block)
    requires |x| >= 512
  {
    Wires(x, 384)
  }

  function CommitKey(x: seq<bool>): (r: Block)
    requires |x| >= 896
  {
    Wires(x, 512)
  }

  function Commitment(x: seq<bool>): (r: seq<bool>)
    requires |x| >= 896
    ensures |r| == 256
  {
    x[640..896]
  }

  /** A revealed byte carrying one wire eight times. */
  function Repeated(b: bool): (r: seq<bool>)
    ensures |r| == 8 && forall i | 0 <= i < 8 :: r[i] == b
  {
    seq(8, _ => b)
  }

  /** The tag over the two parties' inputs, on Alice's counter block. */
  function Tag(aes: Cipher, alice: seq<bool>, bob: seq<bool>): (t: Block)
    requires |alice| >= 512 && |bob| >= 512
  {
    Xor(aes(Xor(KeyShare(alice), KeyShare(bob)), Iv(alice)), Xor(TagShare(alice), TagShare(bob)))
  }

  /** Both parties named the same counter block and the same server tag. */
  predicate Agree(alice: seq<bool>, bob: seq<bool>)
    requires |alice| >= 512 && |bob| >= 512
  {
    Iv(alice) == Iv(bob) && ServerTag(alice) == ServerTag(bob)
  }

  predicate Accepts(aes: Cipher, alice: seq<bool>, bob: seq<bool>)
    requires |alice| >= 512 && |bob| >= 512
  {
    Agree(alice, bob) && ServerTag(alice) == Tag(aes, alice, bob)
  }

  /** Bob holds a commitment that Alice's key share opens. */
  predicate KeyOpens(aes: Cipher, alice: seq<bool>, bob: seq<bool>)
    requires |alice| >= 896 && |bob| >= 896
  {
    Hirose(aes, CommitKey(alice), KeyShare(alice), HIROSE_C) == Commitment(bob)
  }

  method TagWires(aes: Cipher, alice: seq<bool>, bob: seq<bool>) returns (output: Block)
    requires |alice| == |bob| >= 512
    ensures output == Tag(aes, alice, bob)
  {
    var key := XorWires(alice[..128], bob[..128]);
    output := Encrypt(aes, key, alice[128..256]);
    var shares := XorWires(alice[256..384], bob[256..384]);
    output := XorWires(output, shares);
  }

  method DeriveTag(aes: Cipher, alice: seq<bool>, bob: seq<bool>) returns (ok: seq<bool>, tag: seq<bool>)
    requires |alice| == |bob| == 512
    ensures ok == Repeated(Iv(alice) == Iv(bob))
    ensures tag == Xor(if Iv(alice) == Iv(bob) then Tag(aes, alice, bob) else ZERO, Mask(alice))
  {
    var output := TagWires(aes, alice, bob);
    var wereSame := Equals(alice[128..256], bob[128..256]);
    var gated := new bool[128];
    for i := 0 to 128
      invariant forall k | 0 <= k < i :: gated[k] == (wereSame && output[k])
    {
      gated[i] := wereSame && output[i];
    }
    assert gated[..] == if wereSame then output else ZERO;
    ok := Repeated(wereSame);
    tag := XorWires(gated[..], alice[384..512]);
  }

  method DeriveVerify(aes: Cipher, alice: seq<bool>, bob: seq<bool>) returns (passed: seq<bool>, agreed: seq<bool>)
    requires |alice| == |bob| == 512
    ensures passed == Repeated(Accepts(aes, alice, bob))
    ensures agreed == Repeated(Agree(alice, bob))
  {
    var output := TagWires(aes, alice, bob);
    var wereIvsSame := Equals(alice[128..256], bob[128..256]);
    var wereTagsSame := Equals(alice[384..512], bob[384..512]);
    var bothAgree := wereIvsSame && wereTagsSame;
    var matches := Equals(output, alice[384..512]);
    var tagVerify := matches && bothAgree;
    passed, agreed := Repeated(tagVerify), Repeated(bothAgree);
  }

  method DeriveVerifyCommit(aes: Cipher, alice: seq<bool>, bob: seq<bool>)
    returns (passed: seq<bool>, agreed: seq<bool>, openedByte: seq<bool>)
    requires |alice| == |bob| == 896
    ensures passed == Repeated(Accepts(aes, alice, bob) && KeyOpens(aes, alice, bob))
    ensures agreed == Repeated(Agree(alice, bob))
    ensures openedByte == Repeated(KeyOpens(aes, alice, bob))
  {
    var output := TagWires(aes, alice, bob);
    var commit := HiroseCommit(aes, alice[512..640], alice[..128], HIROSE_C);
    var keyOpened := Equals(commit, bob[640..896]);
    var wereIvsSame := Equals(alice[128..256], bob[128..256]);
    var wereTagsSame := Equals(alice[384..512], bob[384..512]);
    var bothAgree := wereIvsSame && wereTagsSame;
    var matches := Equals(output, alice[384..512]);
    var tagAndKey := matches && keyOpened;
    var tagVerify := tagAndKey && bothAgree;
    passed, agreed, openedByte := Repeated(tagVerify), Repeated(bothAgree), Repeated(keyOpened);
  }

  /** Of all server tags both parties might name, verification accepts exactly the one the
      tag circuit revealed, once Alice strips the mask. */
  lemma VerifyAcceptsExactlyTheTag(aes: Cipher, alice: seq<bool>, bob: seq<bool>, revealed: Block, server: Block)
    requires |alice| == |bob| == 512 && Iv(alice) == Iv(bob)
    requires revealed == Xor(Tag(aes, alice, bob), Mask(alice))
    ensures Accepts(aes, alice[..384] + server, bob[..384] + server) <==> server == Xor(revealed, Mask(alice))
  {
    XorCancel(Tag(aes, alice, bob), Mask(alice));
    var a, b := alice[..384] + server, bob[..384] + server;
    assert KeyShare(a) == KeyShare(alice) && KeyShare(b) == KeyShare(bob);
    assert Iv(a) == Iv(alice) && Iv(b) == Iv(bob);
    assert TagShare(a) == TagShare(alice) && TagShare(b) == TagShare(bob);
    assert ServerTag(a) == server && ServerTag(b) == server;
  }

  // ---------- the tag of GCM ----------

  /** The tag of section 7.1 of NIST SP 800-38D: the encrypted counter block xored with GHASH under the hash
      key of the same key. The blocks are in the field's bit order. */
  function GcmTagOf(aes: Cipher, key: Block, j0: Block, xs: seq<Block>): (t: Block)
  {
    Xor(aes(key, j0), ChangeEndian(Ghash(GcmHashKey(aes, key), xs)))
  }

  /** When the parties hold shares of the powers of `h` and each party's tag share is its local part, the
      circuit's tag is the encrypted counter block xored with GHASH under `h`. */
  lemma TagIsMaskedGhash(aes: Cipher, alice: seq<bool>, bob: seq<bool>, h: Block, xs: seq<Block>,
                         ours: seq<Block>, theirs: seq<Block>)
    requires |alice| == |bob| == 512
    requires |xs| <= |ours| == |theirs|
    requires forall k | 0 <= k < |ours| :: Xor(ours[k], theirs[k]) == Power(h, k + 1)
    requires TagShare(alice) == ChangeEndian(GhashShare(ours, xs))
    requires TagShare(bob) == ChangeEndian(GhashShare(theirs, xs))
    ensures Tag(aes, alice, bob) ==
            Xor(aes(Xor(KeyShare(alice), KeyShare(bob)), Iv(alice)), ChangeEndian(Ghash(h, xs)))
  {
    GhashFromShares(h, xs, ours, theirs);
    ChangeEndianXor(GhashShare(ours, xs), GhashShare(theirs, xs));
  }

  /** The table with one party's masks taken off. */
  function Stripped(n: nat, table: seq<bool>, masks: seq<bool>): (r: seq<Block>)
    requires |table| == |masks| == 128 * n
    ensures |r| == n
  {
    seq(n, k requires 0 <= k < n => ChangeEndian(Xor(BlockAt(table, k), BlockAt(masks, k))))
  }

  /** The other party's masks. */
  function Kept(n: nat, masks: seq<bool>): (r: seq<Block>)
    requires |masks| == 128 * n
    ensures |r| == n
  {
    seq(n, k requires 0 <= k < n => ChangeEndian(BlockAt(masks, k)))
  }

  /** The tag when one party strips its masks from a table of powers made from the key shares `ta` and `tb`,
      the other keeps its own, and each weighs the blocks with what it holds. */
  ghost predicate TagInputs(aes: Cipher, n: nat, ta: Block, tb: Block, table: seq<bool>, ma: seq<bool>, mb: seq<bool>,
                            xs: seq<Block>, alice: seq<bool>, bob: seq<bool>)
  {
    && |ma| == |mb| == 128 * n && |xs| <= n && |alice| == |bob| == 512
    && IsPowerTable(aes, n, ta + ma, tb + mb, table)
    && TagShare(alice) == ChangeEndian(GhashShare(Stripped(n, table, ma), xs))
    && TagShare(bob) == ChangeEndian(GhashShare(Kept(n, mb), xs))
  }

  lemma SharedPower(aes: Cipher, n: nat, ta: Block, tb: Block, table: seq<bool>, ma: seq<bool>, mb: seq<bool>, k: nat)
    requires |ma| == |mb| == 128 * n && k < n && IsPowerTable(aes, n, ta + ma, tb + mb, table)
    ensures Xor(Stripped(n, table, ma)[k], Kept(n, mb)[k]) == Power(HashKey(aes, ta, tb), k + 1)
  {
    var power := Power(HashKey(aes, ta, tb), k + 1);
    assert (ta + ma)[..128] == ta && (tb + mb)[..128] == tb;
    BlockBehind(ta, ma, k);
    BlockBehind(tb, mb, k);
    MaskedPowerIsShared(power, BlockAt(table, k), BlockAt(ma, k), BlockAt(mb, k));
  }

  /** From the table to the tag, for key shares that need not be those of the tag circuit. */
  lemma TableGivesTheTag(aes: Cipher, n: nat, ta: Block, tb: Block, table: seq<bool>, ma: seq<bool>, mb: seq<bool>,
                         xs: seq<Block>, alice: seq<bool>, bob: seq<bool>)
    requires TagInputs(aes, n, ta, tb, table, ma, mb, xs, alice, bob)
    ensures Tag(aes, alice, bob) ==
            Xor(aes(Xor(KeyShare(alice), KeyShare(bob)), Iv(alice)), ChangeEndian(Ghash(HashKey(aes, ta, tb), xs)))
  {
    var ours, theirs, h := Stripped(n, table, ma), Kept(n, mb), HashKey(aes, ta, tb);
    forall k | 0 <= k < n
      ensures Xor(ours[k], theirs[k]) == Power(h, k + 1)
    {
      SharedPower(aes, n, ta, tb, table, ma, mb, k);
    }
    TagIsMaskedGhash(aes, alice, bob, h, xs, ours, theirs);
  }

  /** With the key shares byte-reversed into the table circuit and as they are into the tag circuit, the tag
      is GCM's, for every cipher, key, counter block and sequence of blocks. */
  lemma SharedPowersGiveTheTag(aes: Cipher, n: nat, ka: Block, kb: Block, table: seq<bool>, ma: seq<bool>,
                               mb: seq<bool>, xs: seq<Block>, alice: seq<bool>, bob: seq<bool>)
    requires TagInputs(aes, n, ReverseBytes(ka), ReverseBytes(kb), table, ma, mb, xs, alice, bob)
    requires KeyShare(alice) == ka && KeyShare(bob) == kb
    ensures Tag(aes, alice, bob) == GcmTagOf(aes, Xor(ka, kb), Iv(alice), xs)
  {
    TableGivesTheTag(aes, n, ReverseBytes(ka), ReverseBytes(kb), table, ma, mb, xs, alice, bob);
    HashKeyOfReversedShares(aes, ka, kb);
  }

  /** What the tag comes to when the same key wires go into both circuits. */
  function TagOfSameWires(aes: Cipher, ka: Block, kb: Block, j0: Block, xs: seq<Block>): (t: Block)
  {
    Xor(aes(Xor(ka, kb), j0), ChangeEndian(Ghash(HashKey(aes, ka, kb), xs)))
  }

  /** With the same key wires in both circuits, the tag is GCM's for every cipher, counter block and sequence
      of blocks exactly when the joined key reads the same with its bytes reversed. */
  lemma SameWiresGiveTheTagExactly(ka: Block, kb: Block)
    ensures (forall aes: Cipher, j0: Block, xs: seq<Block> ::
               TagOfSameWires(aes, ka, kb, j0, xs) == GcmTagOf(aes, Xor(ka, kb), j0, xs)) <==>
            ReverseBytes(Xor(ka, kb)) == Xor(ka, kb)
  {
    HashKeyIsGcmExactly(ka, kb);
    if aes: Cipher :| HashKey(aes, ka, kb) != GcmHashKey(aes, Xor(ka, kb)) {
      TagSeesTheHashKey(aes(Xor(ka, kb), ZERO), HashKey(aes, ka, kb), GcmHashKey(aes, Xor(ka, kb)));
      assert TagOfSameWires(aes, ka, kb, ZERO, [ONE]) != GcmTagOf(aes, Xor(ka, kb), ZERO, [ONE]);
    }
  }

  /** Different hash keys give different tags on the block 1. */
  lemma TagSeesTheHashKey(e: Block, h: Block, h': Block)
    requires h != h'
    ensures Xor(e, ChangeEndian(Ghash(h, [ONE]))) != Xor(e, ChangeEndian(Ghash(h', [ONE])))
  {
    GhashOfOne(h);
    GhashOfOne(h');
    ChangeEndianTwice(h);
    ChangeEndianTwice(h');
    XorCancel(ChangeEndian(h), e);
    XorCancel(ChangeEndian(h'), e);
    assert Xor(e, ChangeEndian(h)) == Xor(ChangeEndian(h), e);
    assert Xor(e, ChangeEndian(h')) == Xor(ChangeEndian(h'), e);
  }

  lemma GhashOfOne(h: Block)
    ensures Ghash(h, [ONE]) == h
  {
    assert [ONE][..0] == [] && Xor(ZERO, ONE) == ONE;
    MulRing(ONE, h, h);
    MulRing(h, ONE, ONE);
  }

  /** The circuits and the local evaluation put together: the tag of a record, from key shares, masks, the
      additional data and the ciphertext. */
  method TagRecord(aes: Cipher, n: nat, ka: Block, kb: Block, ma: seq<bool>, mb: seq<bool>, iv: Block, mask: Block,
                   aad: seq<bool>, ciphertext: seq<bool>) returns (ok: bool, tag: seq<bool>)
    requires 1 <= n && |ma| == |mb| == 128 * n && |aad| % 8 == 0 && |ciphertext| % 8 == 0
    ensures ok <==> |Record(aad, ciphertext)| <= n
    ensures ok ==> |tag| == 128 && Xor(tag, mask) == GcmTagOf(aes, Xor(ka, kb), iv, Natural(Record(aad, ciphertext)))
  {
    var table := AdditiveShares(aes, n, ReverseBytes(ka) + ma, ReverseBytes(kb) + mb);
    var okA, shareA := LocalShare(Stripped(n, table, ma), aad, ciphertext);
    var okB, shareB := LocalShare(Kept(n, mb), aad, ciphertext);
    if !okA || !okB {
      return false, [];
    }
    var alice := ka + iv + shareA + mask;
    var bob := kb + iv + shareB + ZERO;
    InputWires(ka, iv, shareA, mask, alice);
    InputWires(kb, iv, shareB, ZERO, bob);
    var same;
    same, tag := DeriveTag(aes, alice, bob);
    ghost var xs := Natural(Record(aad, ciphertext));
    SharedPowersGiveTheTag(aes, n, ka, kb, table, ma, mb, xs, alice, bob);
    XorCancel(Tag(aes, alice, bob), mask);
    ok := true;
  }

  lemma InputWires(key: Block, iv: Block, share: Block, last: Block, x: seq<bool>)
    requires x == key + iv + share + last
    ensures |x| == 512 && KeyShare(x) == key && Iv(x) == iv && TagShare(x) == share && Mask(x) == last
  {
  }

  // ---------- the circuits, on the wires of their inputs ----------

  lemma TagOnWires(aes: Cipher, a: seq<bool>, b: seq<bool>)
    requires |a| >= 512 && |b| >= 512
    ensures Tag(aes, a, b) == Xor(aes(Xor(a[..128], b[..128]), a[128..256]), Xor(a[256..384], b[256..384]))
  {
    assert KeyShare(a) == a[..128] && KeyShare(b) == b[..128];
  }

  /** The parties agree exactly when their counter blocks and their server tags are equal. */
  lemma AgreeOnWires(a: seq<bool>, b: seq<bool>)
    requires |a| >= 512 && |b| >= 512
    ensures Agree(a, b) <==> a[128..256] == b[128..256] && a[384..512] == b[384..512]
  {
  }

  /** Verification accepts exactly when both agree and the tag is that of the joined key. */
  lemma AcceptsOnWires(aes: Cipher, a: seq<bool>, b: seq<bool>)
    requires |a| >= 512 && |b| >= 512
    ensures Accepts(aes, a, b) <==>
            && a[128..256] == b[128..256] && a[384..512] == b[384..512]
            && a[384..512] == Xor(aes(Xor(a[..128], b[..128]), a[128..256]), Xor(a[256..384], b[256..384]))
  {
    AgreeOnWires(a, b);
    TagOnWires(aes, a, b);
  }

  /** Bob's commitment is opened exactly when its two halves are those of Alice's key share. */
  lemma KeyOpensOnWires(aes: Cipher, a: seq<bool>, b: seq<bool>)
    requires |a| >= 896 && |b| >= 896
    ensures var k, r := a[..128], a[512..640];
            KeyOpens(aes, a, b) <==>
            Xor(aes(r, k), k) == b[640..768] && Xor(aes(r, Xor(k, HIROSE_C)), Xor(k, HIROSE_C)) == b[768..896]
  {
    var d := b[640..896];
    HiroseHalves(aes, a[512..640], a[..128], HIROSE_C, d);
    assert KeyShare(a) == a[..128] && d[..128] == b[640..768] && d[128..] == b[768..896];
  }

  /** The tag of GCM on wires: `h` and `xs` are the hash key and the blocks with the bits of every byte reversed,
      and so is GHASH on its way into the tag. */
  lemma GcmTagOnWires(aes: Cipher, key: Block, j0: Block, blocks: seq<Block>, h: Block, xs: seq<Block>, q: nat, r: nat)
    requires q < 16 && r < 8 && |xs| == |blocks|
    requires forall i | 0 <= i < 128 :: h[i] == aes(key, Zeros(128))[i - i % 8 + 7 - i % 8]
    requires forall j, i | 0 <= j < |xs| && 0 <= i < 128 :: xs[j][i] == blocks[j][i - i % 8 + 7 - i % 8]
    ensures GcmTagOf(aes, key, j0, Natural(blocks))[8 * q + r] ==
            (aes(key, j0)[8 * q + r] != Ghash(h, xs)[8 * q + 7 - r])
  {
    BitsReversed(aes(key, Zeros(128)), h);
    forall j | 0 <= j < |xs|
      ensures xs[j] == Natural(blocks)[j]
    {
      BitsReversed(blocks[j], xs[j]);
    }
    assert xs == Natural(blocks);
    ChangeEndianAt(Ghash(h, xs), q, r);
  }

  /** What the circuits give when the same key wires go into both. */
  lemma SameWiresTag(aes: Cipher, n: nat, ka: Block, kb: Block, table: seq<bool>, ma: seq<bool>, mb: seq<bool>,
                     xs: seq<Block>, alice: seq<bool>, bob: seq<bool>)
    requires TagInputs(aes, n, ka, kb, table, ma, mb, xs, alice, bob)
    requires KeyShare(alice) == ka && KeyShare(bob) == kb
    ensures Tag(aes, alice, bob) == TagOfSameWires(aes, ka, kb, Iv(alice), xs)
  {
    TableGivesTheTag(aes, n, ka, kb, table, ma, mb, xs, alice, bob);
  }
}
