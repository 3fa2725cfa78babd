/** SHA-256 and HMAC over wires. The compression function is a parameter. */
module Sha256 {
  import opened Bits
  import opened Numerals
  import opened Endian

  type Chunk = s: seq<bool> | |s| == 512 witness Zeros(512)
  type Digest = s: seq<bool> | |s| == 256 witness Zeros(256)

  /** The compression circuit: a chunk of the padded message, then the running digest. */
  type Compress = (Chunk, Digest) -> Digest

  // ---------- padding ----------

  /** How many zeros follow the single 1. */
  function GetK(len: nat): (k: nat)
  {
    (512 - (len + 1 + 64) % 512) % 512
  }

  function PaddedLen(len: nat): (n: nat)
  {
    len + 1 + GetK(len) + 64
  }

  /** The zeros are the fewest that fill the last chunk. */
  lemma GetKIsLeast(len: nat, k: nat)
    ensures PaddedLen(len) % 512 == 0
    ensures (len + 1 + k + 64) % 512 == 0 ==> GetK(len) <= k
  {
    var q, r := (len + 65) / 512, (len + 65) % 512;
    if r == 0 {
      QuotientExact(PaddedLen(len), 512, q);
    } else {
      QuotientExact(PaddedLen(len), 512, q + 1);
      if k < 512 - r {
        QuotientUnique(len + 65 + k, 512, q, r + k);
      }
    }
  }

  /** The padding rule of section 5.1.1 of FIPS 180-4: the message, a 1, the fewest zeros that
      fill the last chunk, and the message length as 64 bits, most significant first. */
  function Padded(m: seq<bool>): (p: seq<bool>)
    ensures |p| == PaddedLen(|m|)
  {
    m + [true] + Zeros(GetK(|m|)) + BigEndian(|m|, 64)
  }

  /** No two messages short enough for the 64-bit length are padded alike. */
  lemma PaddedInjective(m: seq<bool>, m': seq<bool>)
    requires |m| < Pow2(64) && |m'| < Pow2(64) && Padded(m) == Padded(m')
    ensures m == m'
  {
    var p, p' := Padded(m), Padded(m');
    var n := |p|;
    assert p[n - 64..] == BigEndian(|m|, 64);
    assert p'[n - 64..] == BigEndian(|m'|, 64);
    BigEndianInjective(|m|, |m'|, 64);
    assert m == p[..|m|] && m' == p'[..|m|];
  }

  /** Writes sixteen bits of the length at `at`, most significant first. */
  method WriteLength(output: array<bool>, at: nat, len: nat)
    requires at + 16 <= output.Length
    modifies output
    ensures output[..] == old(output[..at]) + BigEndian(len, 16) + old(output[at + 16..])
  {
    ghost var bits := BigEndian(len, 16);
    for i := 0 to 16
      invariant forall k | 0 <= k < at || at + i <= k < output.Length :: output[k] == old(output[k])
      invariant forall k | at <= k < at + i :: output[k] == bits[k - at]
    {
      BigEndianAt(len, 16, i);
      output[at + i] := Bit(len, 16 - 1 - i);
    }
  }

  /** Writes the message, the 1 and `zeros` zeros. */
  method PadFront(input: seq<bool>, output: array<bool>, zeros: nat)
    requires |input| + 1 + zeros <= output.Length
    modifies output
    ensures output[..] == input + [true] + Zeros(zeros) + old(output[|input| + 1 + zeros..])
  {
    var len := |input|;
    forall i | 0 <= i < len {
      output[i] := input[i];
    }
    output[len] := true;
    forall i | len + 1 <= i < len + 1 + zeros {
      output[i] := false;
    }
  }

  method PaddingInternal(input: seq<bool>, output: array<bool>)
    requires |input| <= 8191 && PaddedLen(|input|) <= output.Length
    modifies output
    ensures output[..] == Padded(input) + old(output[PaddedLen(|input|)..])
  {
    var len := |input|;
    var K := GetK(len);
    var endOfZeroes := len + 1 + K + 48;
    ghost var front, last := input + [true] + Zeros(K + 48), old(output[endOfZeroes..]);
    PadFront(input, output, K + 48);
    assert output[..endOfZeroes] == front && output[endOfZeroes + 16..] == last[16..];
    WriteLength(output, endOfZeroes, len);
    FrontIsPadded(input, front);
    assert last[16..] == old(output[PaddedLen(len)..]);
  }

  /** Zeros at the front of the length field belong to the zeros before it. */
  lemma ZerosMerge(front: seq<bool>, k: nat, m: nat, narrow: seq<bool>)
    ensures front + Zeros(k + m) + narrow == front + Zeros(k) + (Zeros(m) + narrow)
  {
  }

  /** With a 16-bit length behind it, the front is the padded message. */
  lemma FrontIsPadded(input: seq<bool>, front: seq<bool>)
    requires |input| <= 8191 && front == input + [true] + Zeros(GetK(|input|) + 48)
    ensures front + BigEndian(|input|, 16) == Padded(input)
  {
    LengthField(|input|);
    ZerosMerge(input + [true], GetK(|input|), 48, BigEndian(|input|, 16));
  }

  /** The 64-bit length of a message of at most 8191 bits is 48 zeros and 16 bits. */
  lemma LengthField(len: nat)
    requires len <= 8191
    ensures BigEndian(len, 64) == Zeros(48) + BigEndian(len, 16)
  {
    Pow2Of32();
    BigEndianWide(len, 48, 16);
  }

  // ---------- the hash ----------

  /** The initial digest words of section 5.3.3 of FIPS 180-4. */
  function DigestWord(i: nat): (w: nat)
    requires i < 8
  {
    if i == 0 then 0x6a09e667 else if i == 1 then 0xbb67ae85
    else if i == 2 then 0x3c6ef372 else if i == 3 then 0xa54ff53a
    else if i == 4 then 0x510e527f else if i == 5 then 0x9b05688c
    else if i == 6 then 0x1f83d9ab else 0x5be0cd19
  }

  function DigestWords(): (ws: seq<nat>)
    ensures |ws| == 8
  {
    seq(8, i requires 0 <= i < 8 => DigestWord(i))
  }

  function InitialDigest(): (d: Digest)
  {
    ArrBitsLength(DigestWords(), 32);
    ArrBits(DigestWords(), 32)
  }

  /** Compression folded over the chunks of a padded message. */
  function HashChunks(c: Compress, d: Digest, p: seq<bool>): (r: Digest)
    requires |p| % 512 == 0
    decreases |p|
  {
    if p == [] then d else HashChunks(c, c(p[..512], d), p[512..])
  }

  /** SHA-256 of a byte string on wires. */
  function Hash(c: Compress, m: seq<bool>): (r: Digest)
    requires |m| % 8 == 0
  {
    GetKIsLeast(|m|, 0);
    ChangeEndianFour(HashChunks(c, InitialDigest(), Padded(ChangeEndian(m))))
  }

  lemma {:induction false} HashChunksSnoc(c: Compress, d: Digest, p: seq<bool>, q: Chunk)
    requires |p| % 512 == 0
    ensures HashChunks(c, d, p + q) == c(q, HashChunks(c, d, p))
    decreases |p|
  {
    if p == [] {
      assert p + q == q && q[..512] == q && q[512..] == [];
    } else {
      assert (p + q)[..512] == p[..512] && (p + q)[512..] == p[512..] + q;
      HashChunksSnoc(c, c(p[..512], d), p[512..], q);
    }
  }

  lemma DropMore(s: seq<bool>, t: seq<bool>, at: nat, n: nat)
    requires at + n <= |s| == |t| && s[at..] == t[at..]
    ensures s[at + n..] == t[at + n..]
  {
    assert s[at + n..] == s[at..][n..] && t[at + n..] == t[at..][n..];
  }

  /** Writes one more entry behind those already written. */
  method WriteNext(output: array<bool>, at: nat, w: nat, width: nat, ghost done: seq<bool>, ghost first: seq<bool>)
    requires at + width <= output.Length == |first| && output[..at] == done && output[..][at..] == first[at..]
    modifies output
    ensures output[..at + width] == done + NatBits(w, width) && output[..][at + width..] == first[at + width..]
  {
    ghost var was := output[..];
    WriteEntry(output, at, w, width);
    Splice(was, at, NatBits(w, width), at + width);
    DropMore(was, first, at, width);
  }

  lemma EntryRoom(width: nat, i: nat, n: nat, at: nat, len: nat)
    requires i < n && at == width * i && width * n <= len
    ensures at + width == width * (i + 1) <= len
  {
    OneMore(width, i + 1);
    MulLe(i + 1, n, width);
  }

  lemma HashChunksOne(c: Compress, d: Digest, q: Chunk)
    ensures HashChunks(c, d, []) == d && HashChunks(c, d, q) == c(q, d)
  {
    assert q[..512] == q && q[512..] == [];
  }

  /** Writes the entries of `arr`, `width` wires each, at the start of `output`. */
  method ArrToBlock(output: array<bool>, arr: seq<nat>, width: nat)
    requires width * |arr| <= output.Length
    modifies output
    ensures output[..] == ArrBits(arr, width) + old(output[width * |arr|..])
  {
    ghost var first, done := output[..], [];
    var at := 0;
    assert arr[..0] == [];
    for i := 0 to |arr|
      invariant at == width * i <= output.Length
      invariant done == ArrBits(arr[..i], width)
      invariant output[..at] == done && output[..][at..] == first[at..]
    {
      EntryRoom(width, i, |arr|, at, output.Length);
      WriteNext(output, at, arr[i], width, done, first);
      assert ArrBits(arr[..i + 1], width) == done + NatBits(arr[i], width) by {
        ArrBitsSnoc(arr[..i], arr[i], width);
        assert arr[..i + 1] == arr[..i] + [arr[i]];
      }
      done := done + NatBits(arr[i], width);
      at := at + width;
    }
    assert arr[..|arr|] == arr;
    assert output[..] == output[..at] + output[..][at..];
  }

  method WriteEntry(output: array<bool>, at: nat, w: nat, width: nat)
    requires at + width <= output.Length
    modifies output
    ensures output[..] == old(output[..at]) + NatBits(w, width) + old(output[at + width..])
  {
    var entry := w;
    ghost var bits := NatBits(w, width);
    for j := 0 to width
      invariant forall k | 0 <= k < at || at + j <= k < output.Length :: output[k] == old(output[k])
      invariant forall k | at <= k < at + j :: output[k] == bits[k - at]
      invariant bits[j..] == NatBits(entry, width - j)
    {
      NatBitsNext(entry, width - j);
      assert bits[j] == bits[j..][0] && bits[j + 1..] == bits[j..][1..];
      output[at + j] := entry % 2 == 1;
      entry := entry / 2;
    }
  }

  /** The input with its bits reordered, then padded. */
  method PadInput(input: seq<bool>) returns (padded: seq<bool>)
    requires |input| % 8 == 0 && |input| <= 8191
    ensures padded == Padded(ChangeEndian(input))
  {
    var inputNew := new bool[|input|];
    ChangeEndianInternal(input, inputNew);
    assert inputNew[..] == ChangeEndian(input);
    var paddedInput := new bool[PaddedLen(|input|)];
    PaddingInternal(inputNew[..], paddedInput);
    padded := paddedInput[..];
  }

  /** Hashes `input` into the 256 wires of `output` starting at `at`. */
  method Sha256Internal(c: Compress, input: seq<bool>, output: array<bool>, at: nat)
    requires |input| % 8 == 0 && |input| <= 8191 && at + 256 <= output.Length
    modifies output
    ensures output[..] == old(output[..at]) + Hash(c, input) + old(output[at + 256..])
  {
    var padded := PadInput(input);
    GetKIsLeast(|input|, 0);
    var digest := FoldChunks(c, padded);
    var swapped := new bool[256];
    ChangeEndianFourInto(digest, swapped);
    var result := swapped[..];
    assert result == Hash(c, input);
    Copy(result, output, at);
  }

  /** Copies `src` into `dst` starting at `at`. */
  method Copy(src: seq<bool>, dst: array<bool>, at: nat)
    requires at + |src| <= dst.Length
    modifies dst
    ensures dst[..] == old(dst[..at]) + src + old(dst[at + |src|..])
  {
    forall i | 0 <= i < |src| {
      dst[at + i] := src[i];
    }
  }

  /** Runs the compression circuit over the padded message, chunk by chunk. */
  method FoldChunks(c: Compress, padded: seq<bool>) returns (digest: Digest)
    requires |padded| % 512 == 0 && padded != []
    ensures digest == HashChunks(c, InitialDigest(), padded)
  {
    var digestBits := new bool[256];
    ArrToBlock(digestBits, DigestWords(), 32);
    digest := digestBits[..];
    assert digest == InitialDigest();
    var numChunks := |padded| / 512;
    var iter := 0;
    assert padded[..0] == [];
    for b := 0 to numChunks
      invariant iter == 512 * b
      invariant digest == HashChunks(c, InitialDigest(), padded[..iter])
    {
      var chunk := padded[iter..iter + 512];
      HashChunksSnoc(c, InitialDigest(), padded[..iter], chunk);
      assert padded[..iter + 512] == padded[..iter] + chunk;
      digest := c(chunk, digest);
      iter := iter + 512;
    }
    assert padded[..iter] == padded;
  }

  // ---------- HMAC ----------

  /** A byte repeated over one chunk. */
  function RepeatByte(b: nat): (r: Chunk)
  {
    ArrBitsLength(seq(64, _ => b), 8);
    ArrBits(seq(64, _ => b), 8)
  }

  /** The key, padded with zeros to one chunk, xored with a repeated byte. */
  function KeyPad(key: seq<bool>, b: nat): (r: Chunk)
    requires |key| <= 512
  {
    Xor(key + Zeros(512 - |key|), RepeatByte(b))
  }

  function InnerDigest(c: Compress, key: seq<bool>, data: seq<bool>): (r: Digest)
    requires |key| <= 512 && |data| % 8 == 0
  {
    Hash(c, KeyPad(key, 0x36) + data)
  }

  function OuterInput(key: seq<bool>, inner: Digest): (r: seq<bool>)
    requires |key| <= 512
    ensures |r| == 768
  {
    KeyPad(key, 0x5c) + inner
  }

  /** HMAC as in section 2 of RFC 2104. */
  function Hmac(c: Compress, key: seq<bool>, data: seq<bool>): (r: Digest)
    requires |key| <= 512 && |data| % 8 == 0
  {
    Hash(c, OuterInput(key, InnerDigest(c, key, data)))
  }

  /** Xors the key into the first wires of `output`. */
  method InputKeyXor(output: array<bool>, key: seq<bool>)
    requires |key| <= output.Length
    modifies output
    ensures output[..] == Xor(old(output[..]), key + Zeros(output.Length - |key|))
  {
    for i := 0 to |key|
      invariant forall k | 0 <= k < i :: output[k] == (old(output[k]) != key[k])
      invariant forall k | i <= k < output.Length :: output[k] == old(output[k])
    {
      output[i] := output[i] != key[i];
    }
  }

  /** Fills the first 512 wires with a pad byte xored with the key. */
  method KeyedPad(output: array<bool>, b: nat, key: seq<bool>)
    requires |key| <= 512 <= output.Length
    modifies output
    ensures output[..] == KeyPad(key, b) + old(output[512..])
  {
    ArrToBlock(output, seq(64, _ => b), 8);
    ghost var pad, rest := RepeatByte(b), old(output[512..]);
    assert output[..] == pad + rest;
    InputKeyXor(output, key);
    assert key + Zeros(output.Length - |key|) == (key + Zeros(512 - |key|)) + Zeros(|rest|);
    XorConcat(pad, rest, key + Zeros(512 - |key|), Zeros(|rest|));
    assert Xor(rest, Zeros(|rest|)) == rest;
  }

  /** The inner hash, written straight into the last 256 wires of the outer input. */
  method InnerHash(c: Compress, key: seq<bool>, data: seq<bool>, second: array<bool>)
    requires |key| <= 512 && |data| % 8 == 0 && 512 + |data| <= 8191 && second.Length == 768
    modifies second
    ensures second[512..] == InnerDigest(c, key, data)
  {
    var inner := InnerInput(key, data);
    ghost var was := second[..];
    Sha256Internal(c, inner, second, 512);
    LastPart(was[..512], InnerDigest(c, key, data), was[768..], second[..]);
  }

  lemma LastPart(pre: seq<bool>, last: seq<bool>, rest: seq<bool>, out: seq<bool>)
    requires out == pre + last + rest && rest == []
    ensures out[|pre|..] == last
  {
  }

  /** The padded key and the data. */
  method InnerInput(key: seq<bool>, data: seq<bool>) returns (r: seq<bool>)
    requires |key| <= 512
    ensures r == KeyPad(key, 0x36) + data
  {
    var inner := new bool[512 + |data|];
    KeyedPad(inner, 0x36, key);
    Copy(data, inner, 512);
    r := inner[..];
  }

  method HmacInternal(c: Compress, key: seq<bool>, data: seq<bool>, output: array<bool>)
    requires |key| <= 512 && |data| % 8 == 0 && 512 + |data| <= 8191 && output.Length == 256
    modifies output
    ensures output[..] == Hmac(c, key, data)
  {
    var second := new bool[768];
    InnerHash(c, key, data, second);
    KeyedPad(second, 0x5c, key);
    Sha256Internal(c, second[..], output, 0);
  }

  /** A keyed hash: key, then data. */
  type Prf = (seq<bool>, seq<bool>) -> Digest

  /** `h` is HMAC over the compression function `c`. */
  ghost predicate IsHmac(c: Compress, h: Prf)
  {
    forall key, data {:trigger Hmac(c, key, data)} | |key| <= 512 && |data| % 8 == 0 ::
      h(key, data) == Hmac(c, key, data)
  }

  function TotalHmac(c: Compress, key: seq<bool>, data: seq<bool>): (r: Digest)
  {
    if |key| <= 512 && |data| % 8 == 0 then Hmac(c, key, data) else Zeros(256)
  }

  /** HMAC over `c` as a value. */
  function HmacOver(c: Compress): (h: Prf)
    ensures IsHmac(c, h)
  {
    (key: seq<bool>, data: seq<bool>) => TotalHmac(c, key, data)
  }

  method HmacInto(c: Compress, ghost h: Prf, key: seq<bool>, data: seq<bool>, output: array<bool>)
    requires IsHmac(c, h)
    requires |key| <= 512 && |data| % 8 == 0 && 512 + |data| <= 8191 && output.Length == 256
    modifies output
    ensures output[..] == h(key, data)
  {
    HmacInternal(c, key, data, output);
  }

  lemma KeyPadZeros(key: seq<bool>, n: nat, b: nat)
    requires |key| + n <= 512
    ensures KeyPad(key + Zeros(n), b) == KeyPad(key, b)
  {
    assert key + Zeros(n) + Zeros(512 - |key| - n) == key + Zeros(512 - |key|);
  }

  /** Trailing zeros of a key do not matter: it is padded with zeros anyway. */
  lemma HmacZeroPadsKey(c: Compress, key: seq<bool>, n: nat, data: seq<bool>)
    requires |key| + n <= 512 && |data| % 8 == 0
    ensures Hmac(c, key + Zeros(n), data) == Hmac(c, key, data)
  {
    KeyPadZeros(key, n, 0x36);
    KeyPadZeros(key, n, 0x5c);
  }

  // ---------- the functions above, wire by wire ----------

  /** The padded message: the message, a 1, zeros, and bit 63 - k of the length at place k of the last 64. */
  lemma PaddedWires(m: seq<bool>, i: nat)
    requires i < PaddedLen(|m|)
    ensures Padded(m)[i] == if i < |m| then m[i] else if i == |m| then true
                            else if i < PaddedLen(|m|) - 64 then false else Bit(|m|, PaddedLen(|m|) - 1 - i)
  {
    var start := PaddedLen(|m|) - 64;
    if i >= start {
      BigEndianAt(|m|, 64, i - start);
    }
  }

  /** The hash: the bits of every byte reversed on the way in, the bytes of every word on the way out. */
  lemma HashWires(c: Compress, m: seq<bool>, p: seq<bool>, w: nat, k: nat, j: nat)
    requires |m| % 8 == 0 && |p| == |m|
    requires forall i | 0 <= i < |m| :: 0 <= i - i % 8 + 7 - i % 8 < |m| && p[i] == m[i - i % 8 + 7 - i % 8]
    requires w < 8 && k < 4 && j < 8
    ensures |Padded(p)| % 512 == 0
    ensures Hash(c, m)[32 * w + 8 * k + j] == HashChunks(c, InitialDigest(), Padded(p))[32 * w + 24 - 8 * k + j]
  {
    GetKIsLeast(|m|, 0);
    BitsReversed(m, p);
    ChangeEndianFourAt(HashChunks(c, InitialDigest(), Padded(p)), w, k, j);
  }

  /** The i-th prime, and the whole part of its square root. */
  function PrimeAndRoot(i: nat): (r: (nat, nat))
    requires i < 8
  {
    if i == 0 then (2, 1) else if i == 1 then (3, 1) else if i == 2 then (5, 2) else if i == 3 then (7, 2)
    else if i == 4 then (11, 3) else if i == 5 then (13, 3) else if i == 6 then (17, 4) else (19, 4)
  }

  /** The initial words are the first 32 bits of the fractions of the square roots of the first primes. */
  lemma DigestWordIsRoot(i: nat)
    requires i < 8
    ensures var (p, k) := PrimeAndRoot(i);
            var x := k * 0x1_0000_0000 + DigestWord(i);
            DigestWord(i) < 0x1_0000_0000 && x * x <= p * 0x1_0000_0000_0000_0000 < (x + 1) * (x + 1)
  {
  }

  /** Word `i` of the initial digest lies at 32 * i, least significant bit first. */
  lemma InitialDigestWires(i: nat, j: nat)
    requires i < 8 && j < 32
    ensures InitialDigest()[32 * i + j] == Bit(DigestWord(i), j)
  {
    var d := InitialDigest();
    ArrBitsAt(DigestWords(), 32, i, 32 * i);
    assert d[32 * i + j] == d[32 * i..32 * i + 32][j];
    NatBitsAt(DigestWord(i), 32, j);
  }

  lemma KeyPadWires(key: seq<bool>, b: nat, i: nat)
    requires |key| <= 512 && i < 512
    ensures KeyPad(key, b)[i] == ((i < |key| && key[i]) != Bit(b, i % 8))
  {
    var pad, q := RepeatByte(b), i / 8;
    var bytes := seq(64, _ => b);
    ArrBitsAt(bytes, 8, q, 8 * q);
    assert pad[i] == pad[8 * q..8 * q + 8][i % 8];
    NatBitsAt(b, 8, i % 8);
  }

  /** HMAC of section 2 of RFC 2104, its two pads given wire by wire. */
  lemma HmacByPads(c: Compress, key: seq<bool>, data: seq<bool>, ipad: seq<bool>, opad: seq<bool>)
    requires |key| <= 512 && |data| % 8 == 0 && |ipad| == |opad| == 512
    requires forall i | 0 <= i < 512 :: ipad[i] == ((i < |key| && key[i]) != Bit(0x36, i % 8))
    requires forall i | 0 <= i < 512 :: opad[i] == ((i < |key| && key[i]) != Bit(0x5c, i % 8))
    ensures Hmac(c, key, data) == Hash(c, opad + Hash(c, ipad + data))
  {
    PadIs(key, 0x36, ipad);
    PadIs(key, 0x5c, opad);
  }

  lemma PadIs(key: seq<bool>, b: nat, pad: seq<bool>)
    requires |key| <= 512 && |pad| == 512
    requires forall i | 0 <= i < 512 :: pad[i] == ((i < |key| && key[i]) != Bit(b, i % 8))
    ensures KeyPad(key, b) == pad
  {
    forall i | 0 <= i < 512
      ensures KeyPad(key, b)[i] == pad[i]
    {
      KeyPadWires(key, b, i);
    }
  }

  lemma PrfIsHmac(c: Compress, h: Prf, key: seq<bool>, data: seq<bool>)
    requires IsHmac(c, h) && |key| <= 512 && |data| % 8 == 0
    ensures h(key, data) == Hmac(c, key, data)
  {
  }
}
