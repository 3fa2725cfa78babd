/** Wires and bundles of wires. A wire carries one Boolean; the circuit builder's
    `xor_gate`, `and_gate` and `not_gate` are `!=`, `&&` and `!` on wires. */
module Bits {

  /** A bundle of `n` wires all carrying 0. */
  function Zeros(n: nat): (z: seq<bool>)
    ensures |z| == n
  {
    seq(n, _ => false)
  }

  /** A bundle of 128 wires: an AES block, a key, a field element. */
  type Block = s: seq<bool> | |s| == 128 witness Zeros(128)

  /** Wire-by-wire exclusive or. */
  function Xor(a: seq<bool>, b: seq<bool>): (c: seq<bool>)
    requires |a| == |b|
    ensures |c| == |a|
  {
    seq(|a|, i requires 0 <= i < |a| => a[i] != b[i])
  }

  /** Every wire of `a` gated by the single wire `g`. */
  function Gate(g: bool, a: seq<bool>): (c: seq<bool>)
    ensures |c| == |a|
  {
    seq(|a|, i requires 0 <= i < |a| => g && a[i])
  }

  /** Block `k` of a long bundle. */
  function BlockAt(s: seq<bool>, k: nat): (r: Block)
    requires 128 * k + 128 <= |s|
  {
    s[128 * k..128 * k + 128]
  }

  lemma BlockBehind(head: Block, s: seq<bool>, k: nat)
    requires 128 * k + 128 <= |s|
    ensures BlockAt(head + s, k + 1) == BlockAt(s, k)
  {
    var a, b := BlockAt(head + s, k + 1), BlockAt(s, k);
    assert forall i | 0 <= i < 128 :: a[i] == b[i];
  }

  /** What overwriting `s[at..at + |p|]` leaves before, inside and after. */
  lemma Splice(s: seq<bool>, at: nat, p: seq<bool>, m: nat)
    requires at + |p| <= m <= |s|
    ensures (s[..at] + p + s[at + |p|..])[..at + |p|] == s[..at] + p
    ensures (s[..at] + p + s[at + |p|..])[m..] == s[m..]
  {
  }

  lemma SliceOfSlice(s: seq<bool>, lo: nat, hi: nat, x: nat, y: nat)
    requires lo <= hi <= |s| && x <= y <= hi - lo
    ensures s[lo..hi][x..y] == s[lo + x..lo + y]
  {
    var a, b := s[lo..hi][x..y], s[lo + x..lo + y];
    assert forall k | 0 <= k < |a| :: a[k] == b[k];
  }

  lemma XorConcat(a: seq<bool>, a': seq<bool>, b: seq<bool>, b': seq<bool>)
    requires |a| == |b| && |a'| == |b'|
    ensures Xor(a + a', b + b') == Xor(a, b) + Xor(a', b')
  {
  }

  lemma XorAssociates(a: seq<bool>, b: seq<bool>, c: seq<bool>)
    requires |a| == |b| == |c|
    ensures Xor(Xor(a, b), c) == Xor(a, Xor(b, c))
  {
  }

  /** A mask cancels itself. */
  lemma XorCancel(a: seq<bool>, m: seq<bool>)
    requires |a| == |m|
    ensures Xor(Xor(a, m), m) == a
  {
  }
}
