/** AES-128 as the circuits use it. The block cipher itself is a parameter. */
module Aes {
  import opened Bits
  import opened Endian

  /** An AES-128 block encryption: key, then plaintext. */
  type Cipher = (Block, Block) -> Block

  /** What the raw AES circuit computes on a key and a plaintext, in its own wire order. */
  function RawCircuit(aes: Cipher, key: Block, pt: Block): (r: Block)
  {
    ChangeEndian(aes(ReverseBytes(key), ReverseBytes(pt)))
  }

  /** An or gate made of an and gate and inverters. */
  predicate OrGate(a: bool, b: bool)
    ensures OrGate(a, b) == (a || b)
  {
    !(!a && !b)
  }

  method Equals(a: seq<bool>, b: seq<bool>) returns (r: bool)
    requires |a| == |b|
    ensures r <==> a == b
  {
    var out := false;
    for i := 0 to |a|
      invariant out <==> a[..i] != b[..i]
    {
      assert a[..i + 1] == a[..i] + [a[i]] && b[..i + 1] == b[..i] + [b[i]];
      out := OrGate(out, a[i] != b[i]);
    }
    assert a[..|a|] == a && b[..|a|] == b;
    r := !out;
  }

  method RevBytes128(input: Block) returns (r: Block)
    ensures r == ReverseBytes(input)
  {
    var out := new bool[128];
    for i := 0 to 16
      invariant forall k | 0 <= k < 8 * i :: out[k] == ReverseBytes(input)[k]
    {
      for j := 0 to 8
        invariant forall k | 0 <= k < 8 * i + j :: out[k] == ReverseBytes(input)[k]
      {
        out[i * 8 + j] := input[(15 - i) * 8 + j];
      }
    }
    r := out[..];
  }

  method RevBits128(input: Block) returns (r: Block)
    ensures r == ChangeEndian(input)
  {
    var out := new bool[128];
    for i := 0 to 16
      invariant forall k | 0 <= k < 8 * i :: out[k] == ChangeEndian(input)[k]
    {
      for j := 0 to 8
        invariant forall k | 0 <= k < 8 * i + j :: out[k] == ChangeEndian(input)[k]
      {
        out[i * 8 + j] := input[i * 8 + (7 - j)];
      }
    }
    r := out[..];
  }

  /** Reordering around the raw circuit recovers the plain block cipher. */
  method Encrypt(aes: Cipher, key: Block, pt: Block) returns (r: Block)
    ensures r == aes(key, pt)
  {
    var k := RevBytes128(key);
    var p := RevBytes128(pt);
    var raw := RawCircuit(aes, k, p);
    r := RevBits128(raw);
    ReverseBytesTwice(key);
    ReverseBytesTwice(pt);
    ChangeEndianTwice(aes(key, pt));
  }

  /** Wire-by-wire xor of two bundles, built by a loop of gates. */
  method XorWires(a: seq<bool>, b: seq<bool>) returns (r: seq<bool>)
    requires |a| == |b|
    ensures r == Xor(a, b)
  {
    var out := new bool[|a|];
    for i := 0 to |a|
      invariant forall k | 0 <= k < i :: out[k] == (a[k] != b[k])
    {
      out[i] := a[i] != b[i];
    }
    r := out[..];
  }

  /** The public constant of the two-call commitment: bytes 0x63, fourteen zeros, 0x01. */
  const HIROSE_C: Block := [true, true, false, false, false, true, true] + Zeros(113) + [true] + Zeros(7)

  /** The double-block-length commitment to `b` under the key `r`, with offset `c`. */
  function Hirose(aes: Cipher, r: Block, b: Block, c: Block): (d: seq<bool>)
    ensures |d| == 256
  {
    Xor(aes(r, b), b) + Xor(aes(r, Xor(b, c)), Xor(b, c))
  }

  method HiroseCommit(aes: Cipher, r: Block, b: Block, c: Block) returns (d: seq<bool>)
    ensures d == Hirose(aes, r, b, c)
  {
    var bc := XorWires(b, c);
    var g := Encrypt(aes, r, b);
    var h := Encrypt(aes, r, bc);
    var out := new bool[256];
    for i := 0 to 128
      invariant forall k | 0 <= k < i :: out[k] == (g[k] != b[k])
      invariant forall k | 0 <= k < i :: out[128 + k] == (h[k] != bc[k])
    {
      out[i] := g[i] != b[i];
      out[128 + i] := h[i] != bc[i];
    }
    assert out[..128] == Xor(g, b);
    assert out[128..] == Xor(h, bc);
    d := out[..];
    assert d == out[..128] + out[128..];
  }

  /** The constant by its wires: bits 0, 1, 5 and 6 of the first byte make 0x63, bit 0 of the last byte makes 0x01. */
  lemma HiroseConstant(i: nat)
    requires i < 128
    ensures HIROSE_C[i] <==> i in {0, 1, 5, 6, 120}
  {
  }

  /** What a commitment that equals `d` says of its two halves. */
  lemma HiroseHalves(aes: Cipher, r: Block, b: Block, c: Block, d: seq<bool>)
    requires |d| == 256
    ensures Hirose(aes, r, b, c) == d <==>
            Xor(aes(r, b), b) == d[..128] && Xor(aes(r, Xor(b, c)), Xor(b, c)) == d[128..]
  {
    var x := Hirose(aes, r, b, c);
    assert x[..128] == Xor(aes(r, b), b) && x[128..] == Xor(aes(r, Xor(b, c)), Xor(b, c));
    assert d == d[..128] + d[128..];
  }
}
