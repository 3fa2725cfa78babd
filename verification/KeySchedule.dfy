/** The combined handshake circuit: the TLS 1.3 key schedule on shared inputs. */
module KeySchedule {
  import opened Bits
  import opened Numerals
  import opened Endian
  import opened Sha256
  import opened Hkdf
  import opened HkdfLabel

  // ---------- the schedule of section 7.1 of RFC 8446 ----------

  // Extraction is over the keyed hash `h`, and `x` is HKDF-Expand-Label.

  function EarlySecret(h: Prf, psk: seq<bool>): (r: seq<bool>)
  {
    Extract(h, Zeros(256), psk)
  }

  /** Derive-Secret over a transcript hash. */
  function DeriveSecret(x: LabelKdf, secret: seq<bool>, tag: Label, transcript: seq<bool>): (r: seq<bool>)
  {
    x(secret, tag, transcript, 32)
  }

  function HandshakeSecret(h: Prf, x: LabelKdf, psk: seq<bool>, dhe: seq<bool>, emptyHash: seq<bool>): (r: seq<bool>)
    ensures |r| == 256
  {
    Extract(h, DeriveSecret(x, EarlySecret(h, psk), "derived", emptyHash), dhe)
  }

  function MasterSecret(h: Prf, x: LabelKdf, hs: seq<bool>, emptyHash: seq<bool>): (r: seq<bool>)
  {
    Extract(h, DeriveSecret(x, hs, "derived", emptyHash), Zeros(256))
  }

  /** The five secrets that are split between the parties, in the order they are revealed. */
  function SharedSecret(h: Prf, x: LabelKdf, hs: seq<bool>, emptyHash: seq<bool>, transcript: seq<bool>,
                        j: nat): (r: seq<bool>)
    requires j < 5
  {
    if j == 0 then hs
    else if j == 1 then DeriveSecret(x, hs, "c hs traffic", transcript)
    else if j == 2 then DeriveSecret(x, hs, "s hs traffic", transcript)
    else if j == 3 then DeriveSecret(x, hs, "derived", emptyHash)
    else MasterSecret(h, x, hs, emptyHash)
  }

  // ---------- the same schedule over messages ----------

  // The circuit takes transcript hashes. Section 7.1 of RFC 8446 takes the messages themselves.

  type TranscriptHash = seq<bool> -> Digest

  /** `t` is the hash over the compression function `c`. */
  ghost predicate IsHash(c: Compress, t: TranscriptHash)
  {
    forall m {:trigger Hash(c, m)} | |m| % 8 == 0 :: t(m) == Hash(c, m)
  }

  /** The hash over `c` as a value. */
  function HashOver(c: Compress): (t: TranscriptHash)
    ensures IsHash(c, t)
  {
    (m: seq<bool>) => if |m| % 8 == 0 then Hash(c, m) else Zeros(256)
  }

  /** Derive-Secret over messages. */
  function DeriveSecretOf(t: TranscriptHash, x: LabelKdf, secret: seq<bool>, tag: Label,
                          messages: seq<bool>): (r: seq<bool>)
  {
    x(secret, tag, t(messages), 32)
  }

  function HandshakeSecretOf(t: TranscriptHash, h: Prf, x: LabelKdf, psk: seq<bool>, dhe: seq<bool>): (r: seq<bool>)
  {
    Extract(h, DeriveSecretOf(t, x, Extract(h, Zeros(256), psk), "derived", []), dhe)
  }

  /** The five secrets for a PSK, a Diffie-Hellman value and the hello messages. */
  function TlsSecret(t: TranscriptHash, h: Prf, x: LabelKdf, psk: seq<bool>, dhe: seq<bool>, hello: seq<bool>,
                     j: nat): (r: seq<bool>)
    requires j < 5
  {
    var hs := HandshakeSecretOf(t, h, x, psk, dhe);
    if j == 0 then hs
    else if j == 1 then DeriveSecretOf(t, x, hs, "c hs traffic", hello)
    else if j == 2 then DeriveSecretOf(t, x, hs, "s hs traffic", hello)
    else if j == 3 then DeriveSecretOf(t, x, hs, "derived", [])
    else Extract(h, DeriveSecretOf(t, x, hs, "derived", []), Zeros(256))
  }

  // ---------- the shared Diffie-Hellman value ----------

  lemma ReverseBytesConcat(a: seq<bool>, b: seq<bool>)
    requires |a| == 8 && |b| % 8 == 0
    ensures ReverseBytes(a + b) == ReverseBytes(b) + a
  {
    var s, n := a + b, |b| / 8;
    forall i | 0 <= i < 8 * n + 8
      ensures ReverseBytes(s)[i] == (ReverseBytes(b) + a)[i]
    {
      var q, r := i / 8, i % 8;
      assert ReverseBytes(s)[i] == s[8 * (n - q) + r];
      if q < n {
        assert ReverseBytes(b)[i] == b[8 * (n - 1 - q) + r];
      }
    }
  }

  /** Reversing the bytes of a little-endian numeral gives the big-endian byte string. */
  lemma {:induction false} ReversedNumeral(v: nat, n: nat)
    ensures ReverseBytes(NatBits(v, 8 * n)) == BigEndianBytes(v, n)
  {
    if n > 0 {
      var m := 8 * (n - 1);
      assert NatBits(v, 8 + m) == NatBits(v, 8) + NatBits(v / 256, m) by {
        NatBitsSplit(v, 8, m);
        ShiftByte(v);
      }
      ReverseBytesConcat(NatBits(v, 8), NatBits(v / 256, m));
      ReversedNumeral(v / 256, n - 1);
    }
  }

  /** What the addition circuit computes on reduced operands. */
  function SumMod(p: nat, a: nat, b: nat): (s: nat)
    requires a < p && b < p
    ensures s < p
  {
    if a + b < p then a + b else a + b - p
  }

  lemma SumModIsSum(p: nat, a: nat, b: nat)
    requires a < p && b < p
    ensures SumMod(p, a, b) == (a + b) % p
  {
    QuotientUnique(a + b, p, if a + b < p then 0 else 1, SumMod(p, a, b));
  }

  /** The Diffie-Hellman value as the key schedule takes it: whole bytes, most significant first. */
  function SharedDhe(length: nat, p: nat, a: nat, b: nat): (r: seq<bool>)
    requires a < p && b < p
  {
    BigEndianBytes(SumMod(p, a, b), (length + 7) / 8)
  }

  /** The sum circuit's wires, with zeros up to `size`. */
  method SumWires(length: nat, size: nat, sum: nat) returns (addition: array<bool>)
    requires length <= size && ShiftRight(sum, length) == 0
    ensures fresh(addition) && addition.Length == size && addition[..] == NatBits(sum, size)
  {
    addition := new bool[size];
    forall i | length <= i < size {
      addition[i] := false;
    }
    assert addition[length..] == Zeros(size - length);
    Copy(NatBits(sum, length), addition, 0);
    NatBitsWide(sum, length, size - length);
  }

  /** The sum on whole bytes, put in byte order. */
  method SumBytes(length: nat, size: nat, sum: nat, ghost bytes: nat) returns (addition: array<bool>)
    requires length <= size == 8 * bytes && ShiftRight(sum, length) == 0
    ensures fresh(addition) && addition.Length == size && addition[..] == BigEndianBytes(sum, bytes)
  {
    addition := SumWires(length, size, sum);
    RearrangeSumBits(addition);
    ReversedNumeral(sum, bytes);
  }

  /** The two shares of the Diffie-Hellman value, added; the 521-bit curve fills up to 528 wires. */
  method SharedValue(length: nat, p: nat, a: nat, b: nat) returns (addition: array<bool>)
    requires length == 256 || length == 384 || length == 521
    requires a < p && b < p && ShiftRight(p, length) == 0
    ensures fresh(addition) && addition.Length % 8 == 0 && addition.Length <= 528
    ensures addition[..] == SharedDhe(length, p, a, b)
  {
    var size := if length == 521 then 528 else length;
    var sum := SumMod(p, a, b);
    ShiftMonotonic(sum, p, length);
    addition := SumBytes(length, size, sum, (length + 7) / 8);
  }

  // ---------- the circuit ----------

  /** Masks the low half of a secret for Alice and the high half for Bob, from `curr` on. */
  method XorSecrets(blocks: array<bool>, aliceMask: seq<bool>, bobMask: seq<bool>, curr: nat) returns (next: nat)
    requires blocks.Length == 256 && curr + 128 <= |aliceMask| == |bobMask|
    modifies blocks
    ensures blocks[..128] == Xor(aliceMask[curr..curr + 128], old(blocks[..128]))
    ensures blocks[128..] == Xor(bobMask[curr..curr + 128], old(blocks[128..]))
    ensures next == curr + 128
  {
    next := curr;
    for i := 0 to 128
      invariant next == curr + i
      invariant forall k | 0 <= k < i :: blocks[k] == (aliceMask[curr + k] != old(blocks[k]))
      invariant forall k | 128 <= k < 128 + i :: blocks[k] == (bobMask[curr + k - 128] != old(blocks[k]))
      invariant forall k | i <= k < 128 :: blocks[k] == old(blocks[k])
      invariant forall k | 128 + i <= k < 256 :: blocks[k] == old(blocks[k])
    {
      blocks[i] := aliceMask[next] != blocks[i];
      blocks[i + 128] := bobMask[next] != blocks[i + 128];
      next := next + 1;
    }
  }

  method NewExtract(c: Compress, ghost h: Prf, salt: seq<bool>, ikm: seq<bool>) returns (out: array<bool>)
    requires IsHmac(c, h) && |salt| <= 512 && |ikm| % 8 == 0 && 512 + |ikm| <= 8191
    ensures fresh(out) && out[..] == Extract(h, salt, ikm)
  {
    out := new bool[256];
    HkdfExtractInternal(c, h, salt, ikm, out);
  }

  /** One party's half of secret `j`, with its own mask taken off. */
  function Unmasked(revealed: seq<bool>, mask: seq<bool>, j: nat): (r: Block)
    requires 128 * j + 128 <= |revealed| && 128 * j + 128 <= |mask|
  {
    Xor(BlockAt(mask, j), BlockAt(revealed, j))
  }

  /** Masks and reveals one secret: block `j` of each party's output. */
  method RevealSecret(secret: array<bool>, aliceMask: seq<bool>, bobMask: seq<bool>, curr: nat, ghost j: nat)
    returns (aliceHalf: Block, bobHalf: Block, next: nat)
    requires secret.Length == 256 && curr == 128 * j && curr + 128 <= |aliceMask| == |bobMask|
    modifies secret
    ensures Xor(BlockAt(aliceMask, j), aliceHalf) + Xor(BlockAt(bobMask, j), bobHalf) == old(secret[..])
    ensures next == curr + 128
  {
    ghost var lo, hi := secret[..128], secret[128..];
    next := XorSecrets(secret, aliceMask, bobMask, curr);
    aliceHalf, bobHalf := secret[..128], secret[128..];
    assert Xor(BlockAt(aliceMask, j), aliceHalf) == lo;
    assert Xor(BlockAt(bobMask, j), bobHalf) == hi;
    assert old(secret[..]) == lo + hi;
  }

  datatype Outputs = Outputs(alice: seq<bool>, bob: seq<bool>, fks: seq<bool>, aesKey: seq<bool>, iv: seq<bool>)

  /** Unmasking and joining the two halves of each output block gives the five shared secrets. */
  ghost predicate SharesCorrect(h: Prf, x: LabelKdf, hs: seq<bool>, emptyHash: seq<bool>, transcript: seq<bool>,
                                aliceMask: seq<bool>, bobMask: seq<bool>, o: Outputs)
    requires |aliceMask| == |bobMask| == 768
  {
    && |o.alice| == |o.bob| == 640
    && forall j | 0 <= j < 5 :: Unmasked(o.alice, aliceMask, j) + Unmasked(o.bob, bobMask, j) ==
                                SharedSecret(h, x, hs, emptyHash, transcript, j)
  }

  /** The keys come from the server handshake traffic secret itself, not from its masked form. */
  ghost predicate KeysCorrect(x: LabelKdf, shts: seq<bool>, aliceMask: seq<bool>, o: Outputs)
    requires |aliceMask| == 768
  {
    && |o.aesKey| == 128
    && o.fks == x(shts, "finished", [], 32)
    && Xor(BlockAt(aliceMask, 5), o.aesKey) == x(shts, "key", [], 16)
    && o.iv == x(shts, "iv", [], 12)
  }

  /** The outputs are those of the handshake over the hello messages. */
  ghost predicate IsHandshake(t: TranscriptHash, h: Prf, x: LabelKdf, psk: seq<bool>, dhe: seq<bool>, hello: seq<bool>,
                              aliceMask: seq<bool>, bobMask: seq<bool>, o: Outputs)
    requires |aliceMask| == |bobMask| == 768
  {
    && |o.alice| == |o.bob| == 640
    && (forall j | 0 <= j < 5 ::
          Unmasked(o.alice, aliceMask, j) + Unmasked(o.bob, bobMask, j) == TlsSecret(t, h, x, psk, dhe, hello, j))
    && KeysCorrect(x, TlsSecret(t, h, x, psk, dhe, hello, 2), aliceMask, o)
  }

  /** Fed the hash of nothing and the hash of the hello messages, the schedule is that over messages. */
  lemma HashesStandForMessages(t: TranscriptHash, h: Prf, x: LabelKdf, psk: seq<bool>, dhe: seq<bool>, hello: seq<bool>,
                               hs: seq<bool>, emptyHash: Digest, transcript: Digest,
                               aliceMask: seq<bool>, bobMask: seq<bool>, o: Outputs)
    requires |aliceMask| == |bobMask| == 768
    requires emptyHash == t([]) && transcript == t(hello)
    requires hs == HandshakeSecret(h, x, psk, dhe, emptyHash)
    requires SharesCorrect(h, x, hs, emptyHash, transcript, aliceMask, bobMask, o)
    requires KeysCorrect(x, DeriveSecret(x, hs, "s hs traffic", transcript), aliceMask, o)
    ensures IsHandshake(t, h, x, psk, dhe, hello, aliceMask, bobMask, o)
  {
    forall j | 0 <= j < 5
      ensures TlsSecret(t, h, x, psk, dhe, hello, j) == SharedSecret(h, x, hs, emptyHash, transcript, j)
    {
    }
  }

  /** ES, dES and HS from the PSK shares and the shared value. */
  method DeriveHandshakeSecret(c: Compress, ghost h: Prf, ghost x: LabelKdf, psk: seq<bool>, dhe: seq<bool>,
                               emptyHash: seq<bool>)
    returns (hs: array<bool>)
    requires IsHmac(c, h) && IsExpandLabel(h, x) && |psk| == |emptyHash| == 256 && |dhe| % 8 == 0 && |dhe| <= 528
    ensures fresh(hs) && hs[..] == HandshakeSecret(h, x, psk, dhe, emptyHash)
  {
    var es := NewExtract(c, h, Zeros(256), psk);
    var des := NewExpandLabel(c, h, x, es[..], "derived", emptyHash, 32);
    hs := NewExtract(c, h, des[..], dhe);
  }

  /** Masks the five secrets in place, in this order, through one running cursor, and reveals the halves. */
  method RevealAll(s0: array<bool>, s1: array<bool>, s2: array<bool>, s3: array<bool>, s4: array<bool>,
                   aliceMask: seq<bool>, bobMask: seq<bool>) returns (alice: seq<bool>, bob: seq<bool>, curr: nat)
    requires |aliceMask| == |bobMask| == 768
    requires s0 !in {s1, s2, s3, s4} && s1 !in {s2, s3, s4} && s2 !in {s3, s4} && s3 != s4
    requires s0.Length == s1.Length == s2.Length == s3.Length == s4.Length == 256
    modifies s0, s1, s2, s3, s4
    ensures |alice| == |bob| == 640 && curr == 640
    ensures Unmasked(alice, aliceMask, 0) + Unmasked(bob, bobMask, 0) == old(s0[..])
    ensures Unmasked(alice, aliceMask, 1) + Unmasked(bob, bobMask, 1) == old(s1[..])
    ensures Unmasked(alice, aliceMask, 2) + Unmasked(bob, bobMask, 2) == old(s2[..])
    ensures Unmasked(alice, aliceMask, 3) + Unmasked(bob, bobMask, 3) == old(s3[..])
    ensures Unmasked(alice, aliceMask, 4) + Unmasked(bob, bobMask, 4) == old(s4[..])
  {
    curr := 0;
    var a0, b0, a1, b1, a2, b2, a3, b3, a4, b4;
    a0, b0, curr := RevealSecret(s0, aliceMask, bobMask, curr, 0);
    a1, b1, curr := RevealSecret(s1, aliceMask, bobMask, curr, 1);
    a2, b2, curr := RevealSecret(s2, aliceMask, bobMask, curr, 2);
    a3, b3, curr := RevealSecret(s3, aliceMask, bobMask, curr, 3);
    a4, b4, curr := RevealSecret(s4, aliceMask, bobMask, curr, 4);
    alice := Join(a0, a1, a2, a3, a4);
    bob := Join(b0, b1, b2, b3, b4);
  }

  /** Five blocks revealed one after another. */
  function Join(a0: Block, a1: Block, a2: Block, a3: Block, a4: Block): (r: seq<bool>)
    ensures |r| == 640
    ensures BlockAt(r, 0) == a0 && BlockAt(r, 1) == a1 && BlockAt(r, 2) == a2
    ensures BlockAt(r, 3) == a3 && BlockAt(r, 4) == a4
  {
    a0 + a1 + a2 + a3 + a4
  }

  /** The two handshake traffic secrets. */
  method DeriveTraffic(c: Compress, ghost h: Prf, ghost x: LabelKdf, hs: Digest, transcript: Digest)
    returns (chts: array<bool>, shts: array<bool>)
    requires IsHmac(c, h) && IsExpandLabel(h, x)
    ensures fresh(chts) && fresh(shts) && chts != shts && chts.Length == shts.Length == 256
    ensures chts[..] == DeriveSecret(x, hs, "c hs traffic", transcript)
    ensures shts[..] == DeriveSecret(x, hs, "s hs traffic", transcript)
  {
    chts := NewExpandLabel(c, h, x, hs, "c hs traffic", transcript, 32);
    shts := NewExpandLabel(c, h, x, hs, "s hs traffic", transcript, 32);
  }

  /** Everything derived from the handshake secret: CHTS, SHTS, dHS and MS. */
  method DeriveSecrets(c: Compress, ghost h: Prf, ghost x: LabelKdf, hs: Digest, emptyHash: Digest,
                       transcript: Digest)
    returns (chts: array<bool>, shts: array<bool>, dhs: array<bool>, ms: array<bool>)
    requires IsHmac(c, h) && IsExpandLabel(h, x)
    ensures fresh(chts) && fresh(shts) && fresh(dhs) && fresh(ms)
    ensures chts.Length == shts.Length == dhs.Length == ms.Length == 256
    ensures chts !in {shts, dhs, ms} && shts !in {dhs, ms} && dhs != ms
    ensures chts[..] == SharedSecret(h, x, hs, emptyHash, transcript, 1)
    ensures shts[..] == SharedSecret(h, x, hs, emptyHash, transcript, 2)
    ensures dhs[..] == SharedSecret(h, x, hs, emptyHash, transcript, 3)
    ensures ms[..] == SharedSecret(h, x, hs, emptyHash, transcript, 4)
  {
    chts, shts := DeriveTraffic(c, h, x, hs, transcript);
    dhs := NewExpandLabel(c, h, x, hs, "derived", emptyHash, 32);
    ms := NewExtract(c, h, dhs[..], Zeros(256));
  }

  /** The finished key, the AES key and the IV of a traffic secret. */
  method DeriveKeys(c: Compress, ghost h: Prf, ghost x: LabelKdf, shts: Digest)
    returns (fks: array<bool>, aesKey: array<bool>, iv: array<bool>)
    requires IsHmac(c, h) && IsExpandLabel(h, x)
    ensures fresh(fks) && fresh(aesKey) && fresh(iv) && aesKey !in {fks, iv} && aesKey.Length == 128
    ensures fks[..] == x(shts, "finished", [], 32)
    ensures aesKey[..] == x(shts, "key", [], 16)
    ensures iv[..] == x(shts, "iv", [], 12)
  {
    fks := NewExpandLabel(c, h, x, shts, "finished", [], 32);
    aesKey := NewExpandLabel(c, h, x, shts, "key", [], 16);
    iv := NewExpandLabel(c, h, x, shts, "iv", [], 12);
  }

  /** The whole circuit, from the shared inputs to the masked outputs. */
  method CombinedCircuit(c: Compress, ghost h: Prf, ghost x: LabelKdf, length: nat, p: nat, a: nat, b: nat,
                         alicePsk: Block, bobPsk: Block, emptyHash: Digest, transcript: Digest,
                         aliceMask: seq<bool>, bobMask: seq<bool>, ghost t: TranscriptHash,
                         ghost hello: seq<bool>) returns (o: Outputs)
    requires IsHmac(c, h) && IsExpandLabel(h, x) && IsHash(c, t) && |hello| % 8 == 0
    requires length == 256 || length == 384 || length == 521
    requires a < p && b < p && ShiftRight(p, length) == 0
    requires |aliceMask| == |bobMask| == 768
    ensures var hs := HandshakeSecret(h, x, alicePsk + bobPsk, SharedDhe(length, p, a, b), emptyHash);
            && SharesCorrect(h, x, hs, emptyHash, transcript, aliceMask, bobMask, o)
            && KeysCorrect(x, DeriveSecret(x, hs, "s hs traffic", transcript), aliceMask, o)
    ensures emptyHash == t([]) && transcript == t(hello) ==>
              IsHandshake(t, h, x, alicePsk + bobPsk, SharedDhe(length, p, a, b), hello, aliceMask, bobMask, o)
  {
    var addition := SharedValue(length, p, a, b);
    var derivedSecret := DeriveHandshakeSecret(c, h, x, alicePsk + bobPsk, addition[..], emptyHash);
    ghost var hs := derivedSecret[..];
    o := DeriveAndReveal(c, h, x, derivedSecret, emptyHash, transcript, aliceMask, bobMask);
    if emptyHash == t([]) && transcript == t(hello) {
      HashesStandForMessages(t, h, x, alicePsk + bobPsk, SharedDhe(length, p, a, b), hello, hs, emptyHash, transcript,
                             aliceMask, bobMask, o);
    }
  }

  /** Masks a 128-wire key with Alice's next 128 mask wires. */
  method MaskKey(key: array<bool>, aliceMask: seq<bool>, curr: nat) returns (next: nat)
    requires key.Length == 128 && curr + 128 <= |aliceMask|
    modifies key
    ensures key[..] == Xor(old(key[..]), aliceMask[curr..curr + 128])
    ensures next == curr + 128
  {
    next := curr;
    for i := 0 to 128
      invariant next == curr + i
      invariant forall k | 0 <= k < i :: key[k] == (old(key[k]) != aliceMask[curr + k])
      invariant forall k | i <= k < 128 :: key[k] == old(key[k])
    {
      key[i] := key[i] != aliceMask[next];
      next := next + 1;
    }
  }

  /** The keys are derived first; only then are the secrets masked in place. */
  method DeriveAndReveal(c: Compress, ghost h: Prf, ghost x: LabelKdf, derivedSecret: array<bool>,
                         emptyHash: Digest, transcript: Digest, aliceMask: seq<bool>, bobMask: seq<bool>)
    returns (o: Outputs)
    requires IsHmac(c, h) && IsExpandLabel(h, x) && derivedSecret.Length == 256 && |aliceMask| == |bobMask| == 768
    modifies derivedSecret
    ensures SharesCorrect(h, x, old(derivedSecret[..]), emptyHash, transcript, aliceMask, bobMask, o)
    ensures KeysCorrect(x, DeriveSecret(x, old(derivedSecret[..]), "s hs traffic", transcript), aliceMask, o)
  {
    ghost var hs := derivedSecret[..];
    var chts, shts, dhs, ms := DeriveSecrets(c, h, x, derivedSecret[..], emptyHash, transcript);
    ghost var secret := shts[..];
    var fks, aesKey, iv := DeriveKeys(c, h, x, shts[..]);
    var alice, bob, curr := RevealAll(derivedSecret, chts, shts, dhs, ms, aliceMask, bobMask);
    ghost var key := aesKey[..];
    curr := MaskKey(aesKey, aliceMask, curr);
    assert curr == |aliceMask|;
    o := Outputs(alice, bob, fks[..], aesKey[..], iv[..]);
    assert KeysCorrect(x, secret, aliceMask, o) by {
      assert Xor(BlockAt(aliceMask, 5), o.aesKey) == key;
    }
  }

  // ---------- the schedule by HMAC and bytes ----------

  /** The shared value, read as bytes most significant first, is the sum of the shares modulo p. */
  lemma SharedDheIsSum(length: nat, p: nat, a: nat, b: nat)
    requires a < p && b < p && ShiftRight(p, length) == 0
    ensures var dhe := SharedDhe(length, p, a, b);
            |dhe| == 8 * ((length + 7) / 8) && BytesNat(dhe) == (a + b) % p
  {
    var n, sum := (length + 7) / 8, SumMod(p, a, b);
    SumModIsSum(p, a, b);
    ShiftMonotonic(sum, p, length);
    ShiftTwice(sum, length, 8 * n - length);
    assert ShiftRight(sum, 8 * n) == 0 by { ShiftZero(8 * n - length); }
    BytesNatOfBytes(sum, n);
  }

  lemma {:induction false} ShiftZero(m: nat)
    ensures ShiftRight(0, m) == 0
  {
    if m > 0 {
      ShiftZero(m - 1);
    }
  }

  // The labels of section 7.1 and section 7.3 of RFC 8446, with the bytes of their HkdfLabel structures up to
  // the context: length, label length, "tls13 " and the label, context length.

  const DERIVED: seq<nat> := [0, 32, 13, 0x74, 0x6c, 0x73, 0x31, 0x33, 0x20,
                              0x64, 0x65, 0x72, 0x69, 0x76, 0x65, 0x64, 32]
  const CLIENT: seq<nat> := [0, 32, 18, 0x74, 0x6c, 0x73, 0x31, 0x33, 0x20,
                             0x63, 0x20, 0x68, 0x73, 0x20, 0x74, 0x72, 0x61, 0x66, 0x66, 0x69, 0x63, 32]
  const SERVER: seq<nat> := [0, 32, 18, 0x74, 0x6c, 0x73, 0x31, 0x33, 0x20,
                             0x73, 0x20, 0x68, 0x73, 0x20, 0x74, 0x72, 0x61, 0x66, 0x66, 0x69, 0x63, 32]
  const FINISHED: seq<nat> := [0, 32, 14, 0x74, 0x6c, 0x73, 0x31, 0x33, 0x20,
                               0x66, 0x69, 0x6e, 0x69, 0x73, 0x68, 0x65, 0x64, 0]
  const KEY: seq<nat> := [0, 16, 9, 0x74, 0x6c, 0x73, 0x31, 0x33, 0x20, 0x6b, 0x65, 0x79, 0]
  const IV: seq<nat> := [0, 12, 8, 0x74, 0x6c, 0x73, 0x31, 0x33, 0x20, 0x69, 0x76, 0]

  lemma DerivedHead(tag: Label, bytes: seq<nat>)
    requires tag == "derived" && bytes == DERIVED
    ensures LabelHead(tag, 32, 32, bytes)
  {
  }

  lemma ClientHead(tag: Label, bytes: seq<nat>)
    requires tag == "c hs traffic" && bytes == CLIENT
    ensures LabelHead(tag, 32, 32, bytes)
  {
  }

  lemma ServerHead(tag: Label, bytes: seq<nat>)
    requires tag == "s hs traffic" && bytes == SERVER
    ensures LabelHead(tag, 32, 32, bytes)
  {
  }

  lemma FinishedHead(tag: Label, bytes: seq<nat>)
    requires tag == "finished" && bytes == FINISHED
    ensures LabelHead(tag, 32, 0, bytes)
  {
  }

  lemma KeyHead(tag: Label, bytes: seq<nat>)
    requires tag == "key" && bytes == KEY
    ensures LabelHead(tag, 16, 0, bytes)
  {
  }

  lemma IvHead(tag: Label, bytes: seq<nat>)
    requires tag == "iv" && bytes == IV
    ensures LabelHead(tag, 12, 0, bytes)
  {
  }

  /** The bytes of the six labels. */
  datatype Labels = Labels(derived: seq<nat>, client: seq<nat>, server: seq<nat>, finished: seq<nat>, key: seq<nat>,
                           iv: seq<nat>)

  predicate AreTlsLabels(l: Labels)
  {
    && l.derived == DERIVED && l.client == CLIENT && l.server == SERVER
    && l.finished == FINISHED && l.key == KEY && l.iv == IV
  }

  /** The five secrets from the handshake secret: HS, CHTS, SHTS, dHS and MS. */
  function SecretByHash(h: Prf, l: Labels, hs: Digest, emptyHash: Digest, transcript: Digest, j: nat): (r: Digest)
    requires j < 5
  {
    if j == 0 then hs
    else if j == 1 then ByLabel(h, hs, l.client, transcript)
    else if j == 2 then ByLabel(h, hs, l.server, transcript)
    else if j == 3 then ByLabel(h, hs, l.derived, emptyHash)
    else h(ByLabel(h, hs, l.derived, emptyHash), Zeros(256))
  }

  lemma DeriveIsOneHash(h: Prf, x: LabelKdf, secret: Digest, tag: Label, hash: Digest, bytes: seq<nat>)
    requires IsExpandLabel(h, x) && LabelHead(tag, 32, 32, bytes)
    ensures DeriveSecret(x, secret, tag, hash) == ByLabel(h, secret, bytes, hash)
  {
    LabelIsOneHash(h, x, secret, tag, hash, 32, bytes);
  }

  lemma DerivedIs(h: Prf, x: LabelKdf, l: Labels, secret: Digest, hash: Digest)
    requires IsExpandLabel(h, x) && AreTlsLabels(l)
    ensures DeriveSecret(x, secret, "derived", hash) == ByLabel(h, secret, l.derived, hash)
  {
    DerivedHead("derived", l.derived);
    DeriveIsOneHash(h, x, secret, "derived", hash, l.derived);
  }

  lemma ClientIs(h: Prf, x: LabelKdf, l: Labels, secret: Digest, hash: Digest)
    requires IsExpandLabel(h, x) && AreTlsLabels(l)
    ensures DeriveSecret(x, secret, "c hs traffic", hash) == ByLabel(h, secret, l.client, hash)
  {
    ClientHead("c hs traffic", l.client);
    DeriveIsOneHash(h, x, secret, "c hs traffic", hash, l.client);
  }

  lemma ServerIs(h: Prf, x: LabelKdf, l: Labels, secret: Digest, hash: Digest)
    requires IsExpandLabel(h, x) && AreTlsLabels(l)
    ensures DeriveSecret(x, secret, "s hs traffic", hash) == ByLabel(h, secret, l.server, hash)
  {
    ServerHead("s hs traffic", l.server);
    DeriveIsOneHash(h, x, secret, "s hs traffic", hash, l.server);
  }

  /** The secrets by keyed hashes over the bytes of their labels. */
  lemma SecretsByHash(h: Prf, x: LabelKdf, l: Labels, hs: Digest, emptyHash: Digest, transcript: Digest, j: nat)
    requires IsExpandLabel(h, x) && AreTlsLabels(l) && j < 5
    ensures SharedSecret(h, x, hs, emptyHash, transcript, j) == SecretByHash(h, l, hs, emptyHash, transcript, j)
  {
    if j == 1 {
      ClientIs(h, x, l, hs, transcript);
    } else if j == 2 {
      ServerIs(h, x, l, hs, transcript);
    } else if j >= 3 {
      DerivedIs(h, x, l, hs, emptyHash);
    }
  }

  lemma DerivedByHmac(c: Compress, h: Prf, x: LabelKdf, l: Labels, secret: Digest, hash: Digest)
    requires IsHmac(c, h) && IsExpandLabel(h, x) && AreTlsLabels(l)
    ensures DeriveSecret(x, secret, "derived", hash) == LabelHmac(c, secret, l.derived, hash)
  {
    DerivedIs(h, x, l, secret, hash);
    LabelByHmac(c, h, secret, l.derived, hash);
  }

  /** The handshake secret by HMAC: the early secret from the PSK under the zero key, the derived secret over the
      bytes of its label, and the extraction from the shared value. */
  lemma HandshakeByHmac(c: Compress, h: Prf, x: LabelKdf, l: Labels, psk: seq<bool>, dhe: seq<bool>,
                        emptyHash: Digest, es: Digest, des: Digest)
    requires IsHmac(c, h) && IsExpandLabel(h, x) && AreTlsLabels(l) && |psk| % 8 == 0 && |dhe| % 8 == 0
    requires es == Hmac(c, Zeros(256), psk) && des == LabelHmac(c, es, l.derived, emptyHash)
    ensures HandshakeSecret(h, x, psk, dhe, emptyHash) == Hmac(c, des, dhe)
  {
    ExtractIsHmac(c, h, Zeros(256), psk);
    DerivedByHmac(c, h, x, l, es, emptyHash);
    ExtractIsHmac(c, h, des, dhe);
  }

  /** The master secret by HMAC. */
  lemma MasterByHmac(c: Compress, h: Prf, x: LabelKdf, l: Labels, hs: Digest, emptyHash: Digest, dhs: Digest)
    requires IsHmac(c, h) && IsExpandLabel(h, x) && AreTlsLabels(l)
    requires dhs == LabelHmac(c, hs, l.derived, emptyHash)
    ensures MasterSecret(h, x, hs, emptyHash) == Hmac(c, dhs, Zeros(256))
  {
    DerivedByHmac(c, h, x, l, hs, emptyHash);
    ExtractIsHmac(c, h, dhs, Zeros(256));
  }

  /** What the circuit reveals, wire by wire: Alice's outputs and masks give the low half of each secret and
      Bob's the high half. */
  lemma RevealedWires(h: Prf, x: LabelKdf, l: Labels, hs: Digest, emptyHash: Digest, transcript: Digest,
                      aliceMask: seq<bool>, bobMask: seq<bool>, o: Outputs, j: nat, i: nat)
    requires IsExpandLabel(h, x) && AreTlsLabels(l) && |aliceMask| == |bobMask| == 768 && j < 5 && i < 128
    requires SharesCorrect(h, x, hs, emptyHash, transcript, aliceMask, bobMask, o)
    ensures |o.alice| == |o.bob| == 640
    ensures (o.alice[128 * j + i] != aliceMask[128 * j + i]) == SecretByHash(h, l, hs, emptyHash, transcript, j)[i]
    ensures (o.bob[128 * j + i] != bobMask[128 * j + i]) == SecretByHash(h, l, hs, emptyHash, transcript, j)[128 + i]
  {
    SecretsByHash(h, x, l, hs, emptyHash, transcript, j);
    var secret := SharedSecret(h, x, hs, emptyHash, transcript, j);
    JoinedWires(o.alice, o.bob, aliceMask, bobMask, secret, j, i);
  }

  lemma JoinedWires(alice: seq<bool>, bob: seq<bool>, aliceMask: seq<bool>, bobMask: seq<bool>, secret: seq<bool>,
                    j: nat, i: nat)
    requires |alice| == |bob| == 640 && |aliceMask| == |bobMask| == 768 && j < 5 && i < 128
    requires Unmasked(alice, aliceMask, j) + Unmasked(bob, bobMask, j) == secret
    ensures (alice[128 * j + i] != aliceMask[128 * j + i]) == secret[i]
    ensures (bob[128 * j + i] != bobMask[128 * j + i]) == secret[128 + i]
  {
    var lo: seq<bool>, hi: seq<bool> := Unmasked(alice, aliceMask, j), Unmasked(bob, bobMask, j);
    assert secret[i] == lo[i] && secret[128 + i] == hi[i];
  }

  lemma FinishedIs(h: Prf, x: LabelKdf, l: Labels, secret: Digest, none: seq<bool>)
    requires IsExpandLabel(h, x) && AreTlsLabels(l) && none == []
    ensures x(secret, "finished", none, 32) == ByLabel(h, secret, l.finished, none)
  {
    FinishedHead("finished", l.finished);
    LabelIsOneHash(h, x, secret, "finished", none, 32, l.finished);
  }

  lemma KeyIs(h: Prf, x: LabelKdf, l: Labels, secret: Digest, none: seq<bool>)
    requires IsExpandLabel(h, x) && AreTlsLabels(l) && none == []
    ensures x(secret, "key", none, 16) == ByLabel(h, secret, l.key, none)[..128]
  {
    KeyHead("key", l.key);
    LabelIsOneHash(h, x, secret, "key", none, 16, l.key);
  }

  lemma IvIs(h: Prf, x: LabelKdf, l: Labels, secret: Digest, none: seq<bool>)
    requires IsExpandLabel(h, x) && AreTlsLabels(l) && none == []
    ensures x(secret, "iv", none, 12) == ByLabel(h, secret, l.iv, none)[..96]
  {
    IvHead("iv", l.iv);
    LabelIsOneHash(h, x, secret, "iv", none, 12, l.iv);
  }

  /** The finished key and the IV, by their label bytes. */
  lemma RevealedKeys(h: Prf, x: LabelKdf, l: Labels, shts: Digest, aliceMask: seq<bool>, o: Outputs, none: seq<bool>)
    requires IsExpandLabel(h, x) && AreTlsLabels(l) && |aliceMask| == 768 && none == []
    requires KeysCorrect(x, shts, aliceMask, o)
    ensures o.fks == ByLabel(h, shts, l.finished, none) && o.iv == ByLabel(h, shts, l.iv, none)[..96]
  {
    FinishedIs(h, x, l, shts, none);
    IvIs(h, x, l, shts, none);
  }

  /** The AES key, by its label bytes, under the last 128 of Alice's mask wires. */
  lemma RevealedAesKey(h: Prf, x: LabelKdf, l: Labels, shts: Digest, aliceMask: seq<bool>, o: Outputs, none: seq<bool>,
                       i: nat)
    requires IsExpandLabel(h, x) && AreTlsLabels(l) && |aliceMask| == 768 && none == [] && i < 128
    requires KeysCorrect(x, shts, aliceMask, o)
    ensures |o.aesKey| == 128 && (o.aesKey[i] != aliceMask[640 + i]) == ByLabel(h, shts, l.key, none)[i]
  {
    KeyIs(h, x, l, shts, none);
    PrefixWire(ByLabel(h, shts, l.key, none), BlockAt(aliceMask, 5), o.aesKey, i);
  }

  lemma PrefixWire(key: Digest, mask: Block, masked: Block, i: nat)
    requires Xor(mask, masked) == key[..128] && i < 128
    ensures (masked[i] != mask[i]) == key[i]
  {
    assert key[i] == key[..128][i];
  }

  lemma HashIs(c: Compress, t: TranscriptHash, m: seq<bool>)
    requires IsHash(c, t) && |m| % 8 == 0
    ensures t(m) == Hash(c, m)
  {
  }

  /** The handshake over messages, wire by wire: the secrets are keyed hashes over the bytes of their labels, the
      hash of nothing and the hash of the hello messages. */
  lemma HandshakeWires(t: TranscriptHash, h: Prf, x: LabelKdf, l: Labels, psk: seq<bool>, dhe: seq<bool>,
                       hello: seq<bool>, aliceMask: seq<bool>, bobMask: seq<bool>, o: Outputs,
                       hs: Digest, nothing: Digest, transcript: Digest, j: nat, i: nat)
    requires IsExpandLabel(h, x) && AreTlsLabels(l) && |aliceMask| == |bobMask| == 768 && j < 5 && i < 128
    requires nothing == t([]) && transcript == t(hello)
    requires hs == h(ByLabel(h, h(Zeros(256), psk), l.derived, nothing), dhe)
    requires IsHandshake(t, h, x, psk, dhe, hello, aliceMask, bobMask, o)
    ensures |o.alice| == |o.bob| == 640
    ensures (o.alice[128 * j + i] != aliceMask[128 * j + i]) == SecretByHash(h, l, hs, nothing, transcript, j)[i]
    ensures (o.bob[128 * j + i] != bobMask[128 * j + i]) == SecretByHash(h, l, hs, nothing, transcript, j)[128 + i]
  {
    HandshakeByHash(t, h, x, l, psk, dhe, hs, nothing);
    MessagesStandForHashes(t, h, x, psk, dhe, hello, hs, nothing, transcript, j);
    SecretsByHash(h, x, l, hs, nothing, transcript, j);
    JoinedWires(o.alice, o.bob, aliceMask, bobMask, TlsSecret(t, h, x, psk, dhe, hello, j), j, i);
  }

  lemma HandshakeByHash(t: TranscriptHash, h: Prf, x: LabelKdf, l: Labels, psk: seq<bool>, dhe: seq<bool>, hs: Digest,
                        nothing: Digest)
    requires IsExpandLabel(h, x) && AreTlsLabels(l) && nothing == t([])
    requires hs == h(ByLabel(h, h(Zeros(256), psk), l.derived, nothing), dhe)
    ensures HandshakeSecretOf(t, h, x, psk, dhe) == hs
  {
    DerivedIs(h, x, l, h(Zeros(256), psk), nothing);
  }

  lemma MessagesStandForHashes(t: TranscriptHash, h: Prf, x: LabelKdf, psk: seq<bool>, dhe: seq<bool>,
                               hello: seq<bool>, hs: Digest, nothing: Digest, transcript: Digest, j: nat)
    requires j < 5 && nothing == t([]) && transcript == t(hello) && hs == HandshakeSecretOf(t, h, x, psk, dhe)
    ensures TlsSecret(t, h, x, psk, dhe, hello, j) == SharedSecret(h, x, hs, nothing, transcript, j)
  {
  }

  /** The keys of the handshake come from the server traffic secret over the hello messages. */
  lemma HandshakeKeys(t: TranscriptHash, h: Prf, x: LabelKdf, psk: seq<bool>, dhe: seq<bool>, hello: seq<bool>,
                      aliceMask: seq<bool>, bobMask: seq<bool>, o: Outputs)
    requires |aliceMask| == |bobMask| == 768
    requires IsHandshake(t, h, x, psk, dhe, hello, aliceMask, bobMask, o)
    ensures KeysCorrect(x, TlsSecret(t, h, x, psk, dhe, hello, 2), aliceMask, o)
  {
  }
}
