/** HKDF over wires. */
module Hkdf {
  import opened Bits
  import opened Numerals
  import opened Sha256

  /** Extraction as in section 2.2 of RFC 5869; a missing salt stands for 32 zero bytes. */
  function Extract(h: Prf, salt: seq<bool>, ikm: seq<bool>): (r: Digest)
  {
    h(if salt == [] then Zeros(256) else salt, ikm)
  }

  /** Block `i` of the expansion of section 2.3 of RFC 5869; block 0 is empty. */
  function T(h: Prf, key: seq<bool>, info: seq<bool>, i: nat): (r: seq<bool>)
    ensures |r| == if i == 0 then 0 else 256
  {
    if i == 0 then [] else h(key, T(h, key, info, i - 1) + info + NatBits(i, 8))
  }

  /** T(1) || T(2) || ... || T(n). */
  function Stream(h: Prf, key: seq<bool>, info: seq<bool>, n: nat): (r: seq<bool>)
    ensures |r| == 256 * n
  {
    if n == 0 then [] else Stream(h, key, info, n - 1) + T(h, key, info, n)
  }

  /** The first `len` bytes of the expansion. */
  function Expand(h: Prf, key: seq<bool>, info: seq<bool>, len: nat): (r: seq<bool>)
    ensures |r| == 8 * len
  {
    Stream(h, key, info, (len + 31) / 32)[..8 * len]
  }

  lemma {:induction false} StreamPrefix(h: Prf, key: seq<bool>, info: seq<bool>, m: nat, n: nat)
    requires m <= n
    ensures Stream(h, key, info, n)[..256 * m] == Stream(h, key, info, m)
  {
    if m < n {
      StreamPrefix(h, key, info, m, n - 1);
      assert Stream(h, key, info, n)[..256 * m] == Stream(h, key, info, n - 1)[..256 * m];
    }
  }

  /** Asking for fewer bytes gives a prefix of asking for more. */
  lemma ExpandPrefix(h: Prf, key: seq<bool>, info: seq<bool>, len: nat, more: nat)
    requires len <= more
    ensures Expand(h, key, info, more)[..8 * len] == Expand(h, key, info, len)
  {
    StreamPrefix(h, key, info, (len + 31) / 32, (more + 31) / 32);
    var s := Stream(h, key, info, (more + 31) / 32);
    assert s[..256 * ((len + 31) / 32)][..8 * len] == s[..8 * len];
  }

  method HkdfExtractInternal(c: Compress, ghost h: Prf, salt: seq<bool>, ikm: seq<bool>, output: array<bool>)
    requires IsHmac(c, h)
    requires |salt| <= 512 && |ikm| % 8 == 0 && 512 + |ikm| <= 8191 && output.Length == 256
    modifies output
    ensures output[..] == Extract(h, salt, ikm)
  {
    if |salt| == 0 {
      HmacInto(c, h, Zeros(256), ikm, output);
      return;
    }
    HmacInto(c, h, salt, ikm, output);
  }

  /** Copies 256 wires to `output[base..]` but stops at `limit`. */
  method CopyClipped(src: seq<bool>, output: array<bool>, base: nat, limit: nat) returns (stopped: bool)
    requires |src| == 256 && base <= limit <= output.Length
    modifies output
    ensures stopped == (limit < base + 256)
    ensures output[..] == if stopped then old(output[..base]) + src[..limit - base] + old(output[limit..])
                          else old(output[..base]) + src + old(output[base + 256..])
  {
    for j := 0 to 256
      invariant base + j <= limit
      invariant forall k | 0 <= k < base || base + j <= k < output.Length :: output[k] == old(output[k])
      invariant forall k | base <= k < base + j :: output[k] == src[k - base]
    {
      var index := base + j;
      if index >= limit {
        return true;
      }
      output[index] := src[j];
    }
    return false;
  }

  lemma NextStream(h: Prf, key: seq<bool>, info: seq<bool>, i: nat)
    requires i > 0
    ensures Stream(h, key, info, i) == Stream(h, key, info, i - 1) + T(h, key, info, i)
  {
  }

  /** What a clipped copy of `block` behind the first `done` wires leaves. */
  lemma Clipped(was: seq<bool>, done: nat, block: seq<bool>, limit: nat, stopped: bool, out: seq<bool>)
    requires |block| == 256 && done <= limit <= |was| && stopped == (limit < done + 256)
    requires out == if stopped then was[..done] + block[..limit - done] + was[limit..]
                    else was[..done] + block + was[done + 256..]
    ensures |out| == |was| && out[limit..] == was[limit..]
    ensures stopped ==> out[..limit] == (was[..done] + block)[..limit]
    ensures !stopped ==> out[..done + 256] == was[..done] + block
  {
  }

  /** The keyed hash's input in a later round. */
  method RoundInput(prev: Digest, info: seq<bool>, i: nat) returns (r: seq<bool>)
    ensures r == prev + info + NatBits(i, 8)
  {
    var input := new bool[256 + |info| + 8];
    Copy(prev, input, 0);
    Copy(info, input, 256);
    assert input[..256 + |info|] == prev + info;
    WriteEntry(input, 256 + |info|, i, 8);
    r := input[..];
  }

  /** Overwrites the block `prev` with the keyed hash of it, the info and the counter. */
  method ExpandRound(c: Compress, ghost h: Prf, key: seq<bool>, info: seq<bool>, i: nat, curT: array<bool>,
                     ghost prev: Digest)
    requires IsHmac(c, h)
    requires |key| <= 512 && |info| % 8 == 0 && 512 + 256 + |info| + 8 <= 8191
    requires curT.Length == 256 && curT[..] == prev
    modifies curT
    ensures curT[..] == h(key, prev + info + NatBits(i, 8))
  {
    var input := RoundInput(curT[..], info, i);
    HmacInto(c, h, key, input, curT);
  }

  /** Overwrites block i - 1 of the expansion with block i. */
  method ExpandBlock(c: Compress, ghost h: Prf, key: seq<bool>, info: seq<bool>, i: nat, curT: array<bool>)
    requires IsHmac(c, h) && 2 <= i
    requires |key| <= 512 && |info| % 8 == 0 && 512 + 256 + |info| + 8 <= 8191
    requires curT.Length == 256 && curT[..] == T(h, key, info, i - 1)
    modifies curT
    ensures curT[..] == T(h, key, info, i)
  {
    ghost var prev := curT[..];
    ExpandRound(c, h, key, info, i, curT, prev);
    NextBlock(h, key, info, i);
  }

  lemma NextBlock(h: Prf, key: seq<bool>, info: seq<bool>, i: nat)
    requires i > 0
    ensures T(h, key, info, i) == h(key, T(h, key, info, i - 1) + info + NatBits(i, 8))
  {
  }

  /** Round `i`: the next block goes out, clipped at `limit`. */
  method ExpandStep(c: Compress, ghost h: Prf, key: seq<bool>, info: seq<bool>, output: array<bool>, limit: nat,
                    i: nat, curT: array<bool>) returns (stopped: bool)
    requires IsHmac(c, h) && curT != output && 2 <= i
    requires |key| <= 512 && |info| % 8 == 0 && 512 + 256 + |info| + 8 <= 8191
    requires 256 * (i - 1) <= limit <= output.Length
    requires curT.Length == 256 && curT[..] == T(h, key, info, i - 1)
    requires output[..256 * (i - 1)] == Stream(h, key, info, i - 1)
    modifies output, curT
    ensures curT[..] == T(h, key, info, i)
    ensures stopped == (limit < 256 * i)
    ensures stopped ==> output[..limit] == Stream(h, key, info, i)[..limit]
    ensures !stopped ==> output[..256 * i] == Stream(h, key, info, i)
    ensures output[limit..] == old(output[limit..])
  {
    ghost var written := Stream(h, key, info, i - 1);
    ExpandBlock(c, h, key, info, i, curT);
    stopped := EmitBlock(curT[..], output, (i - 1) * 256, limit, written);
    NextStream(h, key, info, i);
  }

  /** Writes one block behind what is written, clipped at `limit`. */
  method EmitBlock(block: Digest, output: array<bool>, base: nat, limit: nat, ghost written: seq<bool>)
    returns (stopped: bool)
    requires base <= limit <= output.Length && output[..base] == written
    modifies output
    ensures stopped == (limit < base + 256)
    ensures stopped ==> output[..limit] == (written + block)[..limit]
    ensures !stopped ==> output[..base + 256] == written + block
    ensures output[limit..] == old(output[limit..])
  {
    ghost var was := output[..];
    stopped := CopyClipped(block, output, base, limit);
    Clipped(was, base, block, limit, stopped, output[..]);
  }

  /** Rounds 2 to N, where the last round is the one that reaches `limit`. */
  method ExpandRest(c: Compress, ghost h: Prf, key: seq<bool>, info: seq<bool>, output: array<bool>, limit: nat,
                    N: nat, curT: array<bool>)
    requires IsHmac(c, h) && curT != output
    requires |key| <= 512 && |info| % 8 == 0 && 512 + 256 + |info| + 8 <= 8191
    requires 2 <= N && 256 * (N - 1) < limit <= 256 * N && limit <= output.Length
    requires curT.Length == 256 && curT[..] == T(h, key, info, 1)
    requires output[..256] == Stream(h, key, info, 1)
    modifies output, curT
    ensures output[..limit] == Stream(h, key, info, N)[..limit]
    ensures output[limit..] == old(output[limit..])
  {
    for i := 2 to N + 1
      invariant 256 * (i - 1) <= limit
      invariant curT[..] == T(h, key, info, i - 1)
      invariant output[..256 * (i - 1)] == Stream(h, key, info, i - 1)
      invariant output[limit..] == old(output[limit..])
    {
      var stopped := ExpandStep(c, h, key, info, output, limit, i, curT);
      if stopped {
        assert i == N;
        return;
      }
    }
    WholePrefix(Stream(h, key, info, N), limit);
  }

  lemma WholePrefix(s: seq<bool>, n: nat)
    requires n == |s|
    ensures s[..n] == s
  {
  }

  /** The unrolled first round: there is no previous block. */
  method FirstRound(c: Compress, ghost h: Prf, key: seq<bool>, info: seq<bool>, curT: array<bool>)
    requires IsHmac(c, h) && |key| <= 512 && |info| % 8 == 0 && 512 + |info| + 8 <= 8191
    requires curT.Length == 256
    modifies curT
    ensures curT[..] == T(h, key, info, 1)
  {
    var input := FirstInput(info);
    HmacInto(c, h, key, input, curT);
    FirstCounter();
    FirstBlock(h, key, info, 1);
  }

  /** The info and the counter 1, its first wire set and the others cleared. */
  method FirstInput(info: seq<bool>) returns (r: seq<bool>)
    ensures r == info + ([true] + Zeros(7))
  {
    var input := new bool[|info| + 8];
    Copy(info, input, 0);
    input[|info|] := true;
    forall i | |info| + 1 <= i < |info| + 8 {
      input[i] := false;
    }
    r := input[..];
  }

  /** The inputs of all rounds are short enough to hash: from the second round on they hold a block more. */
  predicate Hashable(infoLen: nat, len: nat)
  {
    512 + (if len > 32 then 256 else 0) + infoLen + 8 <= 8191
  }

  /** The first round and its output, cut off at the requested length. */
  method FirstOutput(c: Compress, ghost h: Prf, key: seq<bool>, info: seq<bool>, output: array<bool>, end: nat)
    returns (curT: array<bool>)
    requires IsHmac(c, h) && |key| <= 512 && |info| % 8 == 0 && 512 + |info| + 8 <= 8191
    requires end <= 256 && end <= output.Length
    modifies output
    ensures fresh(curT) && curT.Length == 256 && curT[..] == T(h, key, info, 1)
    ensures output[..] == curT[..end] + old(output[end..])
  {
    curT := new bool[256];
    FirstRound(c, h, key, info, curT);
    Copy(curT[..end], output, 0);
  }

  lemma JoinAt(out: seq<bool>, was: seq<bool>, limit: nat)
    requires limit <= |out| == |was| && out[limit..] == was[limit..]
    ensures out == out[..limit] + was[limit..]
  {
  }

  lemma PrefixAndRest(was: seq<bool>, out: seq<bool>, block: seq<bool>, limit: nat)
    requires |block| <= limit <= |was| && out == block + was[|block|..]
    ensures out[..|block|] == block && out[limit..] == was[limit..]
  {
  }

  /** The first wires of the output, across the unrolled first round, the early exits and the loop. */
  method HkdfExpandInternal(c: Compress, ghost h: Prf, key: seq<bool>, info: seq<bool>, output: array<bool>, len: nat)
    requires IsHmac(c, h)
    requires 256 <= |key| <= 512 && |info| % 8 == 0 && Hashable(|info|, len)
    requires 8 * len <= output.Length
    modifies output
    ensures output[..] == Expand(h, key, info, len) + old(output[8 * len..])
  {
    ghost var was := output[..];
    var N := (len + 31) / 32;
    var end := if len >= 32 then 256 else 8 * len;
    var curT := FirstOutput(c, h, key, info, output, end);
    if end != 256 || N == 1 {
      ShortExpand(h, key, info, len);
      return;
    }
    FirstStream(h, key, info);
    PrefixAndRest(was, output[..], curT[..], 8 * len);
    ExpandRest(c, h, key, info, output, 8 * len, N, curT);
    JoinAt(output[..], was, 8 * len);
  }

  lemma FirstStream(h: Prf, key: seq<bool>, info: seq<bool>)
    ensures Stream(h, key, info, 1) == T(h, key, info, 1)
  {
    assert Stream(h, key, info, 0) == [];
  }

  /** One block is enough for 32 bytes. */
  lemma ShortExpand(h: Prf, key: seq<bool>, info: seq<bool>, len: nat)
    requires len <= 32
    ensures Expand(h, key, info, len) == T(h, key, info, 1)[..8 * len]
  {
    FirstStream(h, key, info);
  }

  lemma FirstCounter()
    ensures NatBits(1, 8) == [true] + Zeros(7)
  {
    NatBitsNext(1, 8);
    NatBitsZero(7);
  }

  // ---------- the functions above, by HMAC ----------

  /** Extraction is HMAC keyed with the salt. */
  lemma ExtractIsHmac(c: Compress, h: Prf, salt: seq<bool>, ikm: seq<bool>)
    requires IsHmac(c, h) && |salt| <= 512 && |ikm| % 8 == 0
    ensures salt != [] ==> Extract(h, salt, ikm) == Hmac(c, salt, ikm)
    ensures salt == [] ==> Extract(h, salt, ikm) == Hmac(c, Zeros(256), ikm)
  {
    PrfIsHmac(c, h, if salt == [] then Zeros(256) else salt, ikm);
  }

  /** The first block has no block before it. */
  lemma FirstBlock(h: Prf, key: seq<bool>, info: seq<bool>, i: nat)
    requires i == 1
    ensures T(h, key, info, i) == h(key, info + NatBits(i, 8))
  {
    var prev := T(h, key, info, i - 1);
    assert prev == [] && [] + info == info;
    NextBlock(h, key, info, i);
  }

  /** Wire 256 * q + r of the expansion is wire r of block q + 1. */
  lemma ExpandWires(h: Prf, key: seq<bool>, info: seq<bool>, len: nat, q: nat, r: nat)
    requires r < 256 && 256 * q + r < 8 * len
    ensures Expand(h, key, info, len)[256 * q + r] == T(h, key, info, q + 1)[r]
  {
    var n := (len + 31) / 32;
    StreamPrefix(h, key, info, q + 1, n);
    var s := Stream(h, key, info, n);
    assert s[256 * q + r] == s[..256 * (q + 1)][256 * q + r];
    NextStream(h, key, info, q + 1);
  }
}
