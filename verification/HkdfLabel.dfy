/** The HkdfLabel structure of section 7.1 of RFC 8446, on wires. */
module HkdfLabel {
  import opened Bits
  import opened Numerals
  import opened Sha256
  import opened Hkdf

  /** A byte string written as characters. */
  type Label = s: string | forall i | 0 <= i < |s| :: s[i] < 256 as char witness ""

  const PREFIX: Label := "tls13 "

  function Codes(s: Label): (r: seq<nat>)
    ensures |r| == |s|
  {
    seq(|s|, i requires 0 <= i < |s| => s[i] as nat)
  }

  /** The wires of a label, eight a character. */
  function CharBits(s: Label): (r: seq<bool>)
    ensures |r| == 8 * |s|
  {
    Octets(Codes(s))
  }

  /** The requested length on two bytes, the prefixed label and the context, each behind its length
      on one byte. Lengths that do not fit keep only their low bits. */
  function Encode(len: nat, tag: Label, context: seq<bool>): (r: seq<bool>)
    ensures |r| == 32 + 8 * |PREFIX + tag| + |context|
  {
    NatBits(len / 256, 8) + NatBits(len, 8) +
    NatBits(|PREFIX + tag|, 8) + CharBits(PREFIX + tag) +
    NatBits(|context| / 8, 8) + context
  }

  datatype Parsed = Malformed | Fields(len: nat, tag: Label, context: seq<bool>)

  /** The byte on eight wires. */
  function ByteValue(w: seq<bool>): (b: nat)
    requires |w| == 8
    ensures b < 256
  {
    BitsNatBound(w);
    Pow2Of8();
    BitsNat(w)
  }

  /** The characters on successive groups of eight wires. */
  function Chars(w: seq<bool>): (s: Label)
    requires |w| % 8 == 0
    ensures |s| == |w| / 8
    decreases |w|
  {
    if w == [] then "" else [ByteValue(w[..8]) as char] + Chars(w[8..])
  }

  /** Reads the structure back. */
  function Parse(w: seq<bool>): (p: Parsed)
    ensures p.Fields? ==> p.len < 65536 && |PREFIX + p.tag| <= 255 && |p.context| <= 8 * 255
  {
    if |w| < 32 then Malformed else
    var len := 256 * ByteValue(w[..8]) + ByteValue(w[8..16]);
    var n := ByteValue(w[16..24]);
    if n < 6 || |w| < 32 + 8 * n then Malformed else
    var long := Chars(w[24..24 + 8 * n]);
    var m := ByteValue(w[24 + 8 * n..32 + 8 * n]);
    if |w| != 32 + 8 * n + 8 * m || long[..6] != PREFIX then Malformed
    else Fields(len, long[6..], w[32 + 8 * n..])
  }

  lemma ByteRoundTrip(w: nat)
    ensures ByteValue(NatBits(w, 8)) == w % 256
  {
    BitsNatOfNatBits(w, 8);
    Pow2Of8();
  }

  lemma CharBitsNext(s: Label)
    requires s != ""
    ensures CharBits(s) == NatBits(s[0] as nat, 8) + CharBits(s[1..])
  {
    assert Codes(s)[1..] == Codes(s[1..]);
  }

  lemma CharsNext(b: seq<bool>, rest: seq<bool>)
    requires |b| == 8 && |rest| % 8 == 0
    ensures Chars(b + rest) == [ByteValue(b) as char] + Chars(rest)
  {
    assert (b + rest)[..8] == b && (b + rest)[8..] == rest;
  }

  lemma {:induction false} CharsRoundTrip(s: Label)
    ensures Chars(CharBits(s)) == s
  {
    if s != "" {
      CharBitsNext(s);
      CharsNext(NatBits(s[0] as nat, 8), CharBits(s[1..]));
      ByteRoundTrip(s[0] as nat);
      CharsRoundTrip(s[1..]);
      assert s == [s[0]] + s[1..];
    }
  }

  lemma SixParts(a: seq<bool>, b: seq<bool>, c: seq<bool>, d: seq<bool>, e: seq<bool>, f: seq<bool>)
    requires |a| == |b| == |c| == |e| == 8
    ensures var w, k := a + b + c + d + e + f, 24 + |d|;
            && |w| == k + 8 + |f| && w[..8] == a && w[8..16] == b && w[16..24] == c
            && w[24..k] == d && w[k..k + 8] == e && w[k + 8..] == f
  {
  }

  lemma ParseParts(a: seq<bool>, b: seq<bool>, c: seq<bool>, d: seq<bool>, e: seq<bool>, f: seq<bool>,
                   len: nat, long: Label)
    requires |a| == |b| == |c| == |e| == 8
    requires ByteValue(a) == len / 256 && ByteValue(b) == len % 256
    requires ByteValue(c) == |long| && |d| == 8 * |long| && |f| == 8 * ByteValue(e)
    requires Chars(d) == long && |long| >= 6 && long[..6] == PREFIX
    ensures Parse(a + b + c + d + e + f) == Fields(len, long[6..], f)
  {
    SixParts(a, b, c, d, e, f);
  }

  /** One byte of the structure, read back. */
  lemma ByteFits(w: nat)
    requires w < 256
    ensures ByteValue(NatBits(w, 8)) == w
  {
    ByteRoundTrip(w);
  }

  lemma EncodeParses(len: nat, tag: Label, context: seq<bool>)
    requires |context| % 8 == 0
    requires len < 65536 && |PREFIX + tag| <= 255 && |context| <= 8 * 255
    ensures Parse(Encode(len, tag, context)) == Fields(len, tag, context)
  {
    var long := PREFIX + tag;
    var a, b, c := NatBits(len / 256, 8), NatBits(len, 8), NatBits(|long|, 8);
    var d, e := CharBits(long), NatBits(|context| / 8, 8);
    assert ByteValue(a) == len / 256 by { ByteFits(len / 256); }
    assert ByteValue(b) == len % 256 by { ByteRoundTrip(len); }
    assert ByteValue(c) == |long| by { ByteFits(|long|); }
    assert ByteValue(e) == |context| / 8 by { ByteFits(|context| / 8); }
    assert Chars(d) == long by { CharsRoundTrip(long); }
    assert long[..6] == PREFIX && long[6..] == tag;
    assert Encode(len, tag, context) == a + b + c + d + e + context;
    ParseParts(a, b, c, d, e, context, len, long);
  }

  /** The structure reads back as it was written exactly when every length fits its field. */
  lemma RoundTrip(len: nat, tag: Label, context: seq<bool>)
    requires |context| % 8 == 0
    ensures Parse(Encode(len, tag, context)) == Fields(len, tag, context) <==>
            len < 65536 && |PREFIX + tag| <= 255 && |context| <= 8 * 255
  {
    if len < 65536 && |PREFIX + tag| <= 255 && |context| <= 8 * 255 {
      EncodeParses(len, tag, context);
    }
  }

  /** Requests whose lengths fit never share an encoding. */
  lemma Injective(len: nat, tag: Label, context: seq<bool>, len': nat, tag': Label, context': seq<bool>)
    requires |context| % 8 == 0 && |context'| % 8 == 0
    requires len < 65536 && |PREFIX + tag| <= 255 && |context| <= 8 * 255
    requires len' < 65536 && |PREFIX + tag'| <= 255 && |context'| <= 8 * 255
    requires Encode(len, tag, context) == Encode(len', tag', context')
    ensures len == len' && tag == tag' && context == context'
  {
    RoundTrip(len, tag, context);
    RoundTrip(len', tag', context');
  }

  // ---------- building it ----------

  /** Writes the low eight bits of `value` and returns what is left of it. */
  method CopyLoop(out: array<bool>, start: nat, value: nat) returns (left: nat)
    requires start + 8 <= out.Length
    modifies out
    ensures out[..] == old(out[..start]) + NatBits(value, 8) + old(out[start + 8..])
    ensures left == value / 256
  {
    left := value;
    ghost var p := 1;
    for i := 0 to 8
      invariant p == Pow2(i) && left == value / p
      invariant forall k | 0 <= k < start || start + i <= k < out.Length :: out[k] == old(out[k])
      invariant forall k | 0 <= k < i :: out[start + k] == NatBits(value, 8)[k]
    {
      NatBitsAt(value, 8, i);
      out[start + i] := left % 2 == 1;
      DivTwiceLast(value, p);
      left := left / 2;
      p := 2 * p;
    }
    Pow2Of8();
  }

  /** Overwriting a byte at the end of what is written extends it. */
  method AppendByte(out: array<bool>, offset: nat, value: nat, ghost written: seq<bool>)
    requires offset + 8 <= out.Length && out[..offset] == written
    modifies out
    ensures out[..offset + 8] == written + NatBits(value, 8)
  {
    ghost var was := out[..];
    var _ := CopyLoop(out, offset, value);
    Splice(was, offset, NatBits(value, 8), |was|);
  }

  /** The two length bytes, the low byte written first behind the place of the high byte. */
  method LengthBytes(out: array<bool>, len: nat)
    requires 16 <= out.Length
    modifies out
    ensures out[..16] == NatBits(len / 256, 8) + NatBits(len, 8)
  {
    var left := CopyLoop(out, 8, len);
    ghost var mid := out[..];
    assert mid[8..16] == NatBits(len, 8);
    left := CopyLoop(out, 0, left);
    assert out[..] == NatBits(len / 256, 8) + mid[8..];
    assert out[..16] == NatBits(len / 256, 8) + mid[8..16];
  }

  /** The requested length and the label length. */
  method Header(out: array<bool>, len: nat, n: nat)
    requires 24 <= out.Length
    modifies out
    ensures out[..24] == NatBits(len / 256, 8) + NatBits(len, 8) + NatBits(n, 8)
  {
    LengthBytes(out, len);
    NatBitsLow(n);
    AppendByte(out, 16, n % 256, out[..16]);
  }

  /** The characters of the label after the header. */
  method LabelBody(out: array<bool>, s: Label, ghost head: seq<bool>)
    requires 24 + 8 * |s| <= out.Length && |head| == 24 && out[..24] == head
    modifies out
    ensures out[..24 + 8 * |s|] == head + CharBits(s)
  {
    ghost var codes := Codes(s);
    var offset := 24;
    assert codes[..0] == [];
    for i := 0 to |s|
      invariant offset == 24 + 8 * i
      invariant out[..offset] == head + ArrBits(codes[..i], 8)
    {
      ArrBitsSnoc(codes[..i], codes[i], 8);
      assert codes[..i + 1] == codes[..i] + [codes[i]];
      ghost var next := ArrBits(codes[..i], 8);
      AppendByte(out, offset, s[i] as nat, head + next);
      offset := offset + 8;
      assert out[..offset] == head + (next + NatBits(codes[i], 8));
    }
    assert codes[..|s|] == codes;
  }

  /** The context behind its length, filling the buffer exactly. */
  method ContextTail(out: array<bool>, offset: nat, context: seq<bool>, ghost written: seq<bool>)
    requires offset + 8 + |context| == out.Length && out[..offset] == written
    modifies out
    ensures out[..] == written + NatBits(|context| / 8, 8) + context
  {
    NatBitsLow(|context| / 8);
    AppendByte(out, offset, |context| / 8 % 256, written);
    if |context| != 0 {
      Copy(context, out, offset + 8);
    }
  }

  /** Fills a buffer of exactly the right size, front to back. */
  method LabelWires(len: nat, tag: Label, context: seq<bool>) returns (wires: seq<bool>)
    ensures wires == Encode(len, tag, context)
  {
    var longLabel := PREFIX + tag;
    var n := |longLabel|;
    var out := new bool[24 + n * 8 + 8 + |context|];
    Header(out, len, n);
    ghost var head := out[..24];
    LabelBody(out, longLabel, head);
    ContextTail(out, 24 + 8 * n, context, out[..24 + 8 * n]);
    wires := out[..];
  }

  /** HKDF-Expand-Label of section 7.1 of RFC 8446. */
  function ExpandLabel(h: Prf, key: seq<bool>, tag: Label, context: seq<bool>, len: nat): (r: seq<bool>)
    ensures |r| == 8 * len
  {
    Expand(h, key, Encode(len, tag, context), len)
  }

  method ExpandLabelInto(c: Compress, ghost h: Prf, key: seq<bool>, tag: Label, context: seq<bool>,
                         output: array<bool>, len: nat)
    requires IsHmac(c, h)
    requires 256 <= |key| <= 512 && |context| % 8 == 0 && Hashable(32 + 8 * |PREFIX + tag| + |context|, len)
    requires 8 * len <= output.Length
    modifies output
    ensures output[..] == ExpandLabel(h, key, tag, context, len) + old(output[8 * len..])
  {
    var info := LabelWires(len, tag, context);
    HkdfExpandInternal(c, h, key, info, output, len);
  }

  /** HKDF-Expand-Label as a value: key, label, context, output length in bytes. */
  type LabelKdf = (seq<bool>, Label, seq<bool>, nat) -> seq<bool>

  /** `x` is HKDF-Expand-Label over the keyed hash `h`. */
  ghost predicate IsExpandLabel(h: Prf, x: LabelKdf)
  {
    forall key, tag, context, len {:trigger ExpandLabel(h, key, tag, context, len)} ::
      x(key, tag, context, len) == ExpandLabel(h, key, tag, context, len)
  }

  function LabelKdfOver(h: Prf): (x: LabelKdf)
    ensures IsExpandLabel(h, x)
  {
    (key: seq<bool>, tag: Label, context: seq<bool>, len: nat) => ExpandLabel(h, key, tag, context, len)
  }

  method NewExpandLabel(c: Compress, ghost h: Prf, ghost x: LabelKdf, key: seq<bool>, tag: Label, context: seq<bool>,
                        len: nat) returns (out: array<bool>)
    requires IsHmac(c, h) && IsExpandLabel(h, x)
    requires |key| == 256 && |tag| <= 20 && (|context| == 256 || context == [])
    ensures fresh(out) && out.Length == 8 * len && out[..] == x(key, tag, context, len)
  {
    out := new bool[8 * len];
    ExpandLabelInto(c, h, key, tag, context, out, len);
  }

  // ---------- the encoding, byte by byte ----------

  lemma OctetsOne(b: nat)
    ensures Octets([b]) == NatBits(b, 8)
  {
    assert [b][1..] == [];
  }

  /** The prefix by its bytes. */
  lemma PrefixCodes()
    ensures Codes(PREFIX) == [0x74, 0x6c, 0x73, 0x31, 0x33, 0x20]
  {
  }

  /** The encoding is a header of bytes and the context. */
  lemma EncodeOctets(len: nat, tag: Label, codes: seq<nat>, context: seq<bool>)
    requires codes == Codes(tag)
    ensures Encode(len, tag, context) ==
            Octets([len / 256, len, 6 + |tag|, 0x74, 0x6c, 0x73, 0x31, 0x33, 0x20] + codes + [|context| / 8]) + context
  {
    var long := PREFIX + tag;
    var head, prefix, last := [len / 256, len, 6 + |tag|], [0x74, 0x6c, 0x73, 0x31, 0x33, 0x20], [|context| / 8];
    PrefixCodes();
    assert Codes(long) == prefix + codes;
    assert Octets(head) == NatBits(len / 256, 8) + NatBits(len, 8) + NatBits(6 + |tag|, 8) by {
      OctetsOne(len / 256);
      OctetsOne(len);
      OctetsOne(6 + |tag|);
      JoinOctets([len / 256], [len], [6 + |tag|]);
      assert head == [len / 256] + [len] + [6 + |tag|];
    }
    OctetsOne(|context| / 8);
    JoinOctets(head, prefix + codes, last);
    assert [len / 256, len, 6 + |tag|, 0x74, 0x6c, 0x73, 0x31, 0x33, 0x20] == head + prefix;
    assert head + prefix + codes + last == head + (prefix + codes) + last;
  }

  lemma JoinOctets(a: seq<nat>, b: seq<nat>, c: seq<nat>)
    ensures Octets(a + b + c) == Octets(a) + Octets(b) + Octets(c)
  {
    ArrBitsConcat(a + b, c, 8);
    ArrBitsConcat(a, b, 8);
  }

  /** The bytes of the structure up to the context, for a requested length below 256. */
  predicate LabelHead(tag: Label, len: nat, contextBytes: nat, bytes: seq<nat>)
  {
    bytes == [0, len, 6 + |tag|, 0x74, 0x6c, 0x73, 0x31, 0x33, 0x20] + Codes(tag) + [contextBytes]
  }

  /** The structure, its context and the counter 1. */
  function LabelInput(bytes: seq<nat>, context: seq<bool>): (r: seq<bool>)
    ensures |context| % 8 == 0 ==> |r| % 8 == 0
  {
    var r := Octets(bytes) + context + Octets([1]);
    assert |r| == 8 * (|bytes| + 1) + |context|;
    r
  }

  /** One keyed hash of a label structure, its context and the counter 1. */
  function ByLabel(h: Prf, secret: seq<bool>, bytes: seq<nat>, context: seq<bool>): (r: Digest)
  {
    h(secret, LabelInput(bytes, context))
  }

  /** At most 32 bytes of HKDF-Expand-Label are one keyed hash of the encoding and the counter 1. */
  lemma LabelIsOneHash(h: Prf, x: LabelKdf, key: seq<bool>, tag: Label, context: seq<bool>, len: nat, bytes: seq<nat>)
    requires IsExpandLabel(h, x) && len <= 32 && LabelHead(tag, len, |context| / 8, bytes)
    ensures x(key, tag, context, len) == ByLabel(h, key, bytes, context)[..8 * len]
    ensures len == 32 ==> x(key, tag, context, len) == ByLabel(h, key, bytes, context)
  {
    var info := Encode(len, tag, context);
    assert x(key, tag, context, len) == Expand(h, key, info, len) by {
      assert x(key, tag, context, len) == ExpandLabel(h, key, tag, context, len);
    }
    ShortExpand(h, key, info, len);
    FirstBlock(h, key, info, 1);
    assert info == Octets(bytes) + context by {
      EncodeOctets(len, tag, Codes(tag), context);
      assert len / 256 == 0;
    }
    OctetsOne(1);
  }

  /** One HMAC of a label structure, its context and the counter 1. */
  function LabelHmac(c: Compress, secret: Digest, bytes: seq<nat>, context: seq<bool>): (r: Digest)
    requires |context| % 8 == 0
  {
    Hmac(c, secret, LabelInput(bytes, context))
  }

  lemma LabelByHmac(c: Compress, h: Prf, secret: Digest, bytes: seq<nat>, context: seq<bool>)
    requires IsHmac(c, h) && |context| % 8 == 0
    ensures ByLabel(h, secret, bytes, context) == LabelHmac(c, secret, bytes, context)
  {
    PrfIsHmac(c, h, secret, LabelInput(bytes, context));
  }
}
