/** Reorderings of wires: bits within bytes, bytes within words, and whole bundles. */
module Endian {
  import opened Bits

  /** `s` read backwards. */
  function Reversed(s: seq<bool>): (r: seq<bool>)
    ensures |r| == |s|
  {
    seq(|s|, i requires 0 <= i < |s| => s[|s| - 1 - i])
  }

  /** The eight wires of each byte in opposite order. */
  function ChangeEndian(s: seq<bool>): (r: seq<bool>)
    requires |s| % 8 == 0
    ensures |r| == |s|
  {
    seq(|s|, i requires 0 <= i < |s| => s[i / 8 * 8 + (7 - i % 8)])
  }

  /** The bytes in opposite order, each byte's wires kept. */
  function ReverseBytes(s: seq<bool>): (r: seq<bool>)
    requires |s| % 8 == 0
    ensures |r| == |s|
  {
    seq(|s|, i requires 0 <= i < |s| => s[|s| - 8 - i / 8 * 8 + i % 8])
  }

  /** The four bytes of each 32-wire word in opposite order. */
  function ChangeEndianFour(s: seq<bool>): (r: seq<bool>)
    requires |s| == 256
    ensures |r| == 256
  {
    seq(256, i requires 0 <= i < 256 => s[i / 32 * 32 + (24 - i % 32 / 8 * 8) + i % 8])
  }

  lemma ByteIndex(q: nat, r: nat)
    requires r < 8
    ensures (q * 8 + r) / 8 == q && (q * 8 + r) % 8 == r
  {
  }

  lemma ChangeEndianTwice(s: seq<bool>)
    requires |s| % 8 == 0
    ensures ChangeEndian(ChangeEndian(s)) == s
  {
    var t := ChangeEndian(s);
    forall i | 0 <= i < |s|
      ensures ChangeEndian(t)[i] == s[i]
    {
      var q, r := i / 8, i % 8;
      var k := q * 8 + (7 - r);
      ByteIndex(q, 7 - r);
      assert ChangeEndian(t)[i] == t[k];
      assert t[k] == s[k / 8 * 8 + (7 - k % 8)] == s[q * 8 + r];
    }
  }

  lemma ChangeEndianXor(a: seq<bool>, b: seq<bool>)
    requires |a| == |b| && |a| % 8 == 0
    ensures ChangeEndian(Xor(a, b)) == Xor(ChangeEndian(a), ChangeEndian(b))
  {
  }

  lemma ReverseBytesXor(a: seq<bool>, b: seq<bool>)
    requires |a| == |b| && |a| % 8 == 0
    ensures ReverseBytes(Xor(a, b)) == Xor(ReverseBytes(a), ReverseBytes(b))
  {
  }

  lemma ReverseBytesTwice(s: seq<bool>)
    requires |s| % 8 == 0
    ensures ReverseBytes(ReverseBytes(s)) == s
  {
    forall i | 0 <= i < |s|
      ensures ReverseBytes(ReverseBytes(s))[i] == s[i]
    {
      ByteIndex(|s| / 8 - 1 - i / 8, i % 8);
    }
  }

  /** Reversing the bits of every byte and then everything reverses the bytes. */
  lemma ReversedChangeEndian(s: seq<bool>)
    requires |s| % 8 == 0
    ensures Reversed(ChangeEndian(s)) == ReverseBytes(s)
  {
    forall i | 0 <= i < |s|
      ensures Reversed(ChangeEndian(s))[i] == ReverseBytes(s)[i]
    {
      ByteIndex(|s| / 8 - 1 - i / 8, 7 - i % 8);
    }
  }

  /** Reverses `a[lo..hi]` in place. */
  method ReverseRange(a: array<bool>, lo: nat, hi: nat)
    requires lo <= hi <= a.Length
    modifies a
    ensures forall i | lo <= i < hi :: a[i] == old(a[hi - 1 - (i - lo)])
    ensures forall i | 0 <= i < lo || hi <= i < a.Length :: a[i] == old(a[i])
  {
    forall i | lo <= i < hi {
      a[i] := a[hi - 1 - (i - lo)];
    }
  }

  method ChangeEndianInternal(input: seq<bool>, output: array<bool>)
    requires |input| % 8 == 0 && |input| <= output.Length
    modifies output
    ensures output[..] == ChangeEndian(input) + old(output[|input|..])
  {
    forall i | 0 <= i < |input| {
      output[i] := input[i];
    }
    var i := 0;
    while i < |input|
      invariant i <= |input| && i % 8 == 0
      invariant forall k | 0 <= k < i :: output[k] == ChangeEndian(input)[k]
      invariant forall k | i <= k < |input| :: output[k] == input[k]
      invariant forall k | |input| <= k < output.Length :: output[k] == old(output[k])
    {
      ReverseRange(output, i, i + 8);
      forall k | i <= k < i + 8
        ensures k / 8 * 8 == i && k % 8 == k - i
      {
        ByteIndex(i / 8, k - i);
      }
      i := i + 8;
    }
  }

  /** Writes the bytes of the 32-wire word at `at` in opposite order. */
  method ReverseWord(input: seq<bool>, output: array<bool>, at: nat)
    requires at + 32 <= |input| && at + 32 <= output.Length
    modifies output
    ensures forall j | 0 <= j < 32 :: output[..][at..][j] == input[at + 24 - j / 8 * 8 + j % 8]
    ensures forall k | 0 <= k < at || at + 32 <= k < output.Length :: output[k] == old(output[k])
  {
    forall j | 0 <= j < 8 { output[at + 24 + j] := input[at + j]; }
    forall j | 0 <= j < 8 { output[at + 16 + j] := input[at + 8 + j]; }
    forall j | 0 <= j < 8 { output[at + 8 + j] := input[at + 16 + j]; }
    forall j | 0 <= j < 8 { output[at + j] := input[at + 24 + j]; }
  }

  lemma WordIndex(i: nat, j: nat)
    requires j < 32
    ensures (32 * i + j) / 32 == i && (32 * i + j) % 32 == j && (32 * i + j) % 8 == j % 8
  {
    assert 32 * i + j == 8 * (4 * i + j / 8) + j % 8;
  }

  method ChangeEndianFourInto(input: seq<bool>, output: array<bool>)
    requires |input| == 256 && output.Length == 256
    modifies output
    ensures output[..] == ChangeEndianFour(input)
  {
    for i := 0 to 8
      invariant forall k | 0 <= k < 32 * i :: output[k] == ChangeEndianFour(input)[k]
    {
      ReverseWord(input, output, 32 * i);
      forall k | 32 * i <= k < 32 * i + 32
        ensures output[k] == ChangeEndianFour(input)[k]
      {
        WordIndex(i, k - 32 * i);
        assert output[k] == output[..][32 * i..][k - 32 * i];
      }
    }
  }

  /** The bits of each byte are reversed and then the whole bundle is:
      together, the order of the bytes is reversed. */
  method RearrangeSumBits(sum: array<bool>)
    requires sum.Length % 8 == 0
    modifies sum
    ensures sum[..] == ReverseBytes(old(sum[..]))
  {
    ghost var was := sum[..];
    ReverseEachByte(sum);
    ReverseRange(sum, 0, sum.Length);
    ReversedChangeEndian(was);
  }

  method ReverseEachByte(sum: array<bool>)
    requires sum.Length % 8 == 0
    modifies sum
    ensures sum[..] == ChangeEndian(old(sum[..]))
  {
    var width := sum.Length / 8;
    ghost var was := sum[..];
    for i := 0 to width
      invariant forall k | 0 <= k < 8 * i :: sum[k] == ChangeEndian(was)[k]
      invariant forall k | 8 * i <= k < sum.Length :: sum[k] == was[k]
    {
      ReverseRange(sum, i * 8, (i + 1) * 8);
      assert forall k | 8 * i <= k < 8 * i + 8 :: k / 8 == i;
    }
  }

  // ---------- which wire goes where ----------

  lemma ChangeEndianAt(s: seq<bool>, q: nat, r: nat)
    requires |s| % 8 == 0 && 8 * q + 8 <= |s| && r < 8
    ensures ChangeEndian(s)[8 * q + r] == s[8 * q + 7 - r]
  {
    ByteIndex(q, r);
  }

  lemma ReverseBytesAt(s: seq<bool>, q: nat, r: nat)
    requires |s| % 8 == 0 && 8 * q + 8 <= |s| && r < 8
    ensures ReverseBytes(s)[8 * q + r] == s[|s| - 8 - 8 * q + r]
  {
    ByteIndex(q, r);
  }

  lemma ChangeEndianFourAt(s: seq<bool>, w: nat, k: nat, r: nat)
    requires |s| == 256 && w < 8 && k < 4 && r < 8
    ensures ChangeEndianFour(s)[32 * w + 8 * k + r] == s[32 * w + 24 - 8 * k + r]
  {
    WordIndex(w, 8 * k + r);
    ByteIndex(k, r);
  }

  /** Reversing the bits of every byte, given wire by wire. */
  lemma BitsReversed(a: seq<bool>, b: seq<bool>)
    requires |a| % 8 == 0 && |b| == |a|
    requires forall i | 0 <= i < |a| :: 0 <= i - i % 8 + 7 - i % 8 < |a| && b[i] == a[i - i % 8 + 7 - i % 8]
    ensures b == ChangeEndian(a)
  {
    forall i | 0 <= i < |a|
      ensures b[i] == ChangeEndian(a)[i]
    {
      assert i - i % 8 == i / 8 * 8;
    }
  }
}
