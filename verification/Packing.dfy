/** Records as rows of plaintexts: cutting a byte string into groups of bits, and back. */
module Packing {
  import opened Bits
  import opened Numerals

  type byte = x: nat | x < 256

  // ---------- bytes and bits ----------

  /** Bytes packed from bits, least significant first; the last byte may be short. */
  function PackBytes(s: seq<bool>): (r: seq<nat>)
    ensures |r| == (|s| + 7) / 8
    decreases |s|
  {
    if s == [] then []
    else if |s| <= 8 then [BitsNat(s)]
    else [BitsNat(s[..8])] + PackBytes(s[8..])
  }

  lemma {:induction false} BitsNatSnoc(s: seq<bool>, b: bool)
    ensures BitsNat(s + [b]) == BitsNat(s) + if b then Pow2(|s|) else 0
  {
    if s == [] {
      assert [b][1..] == [] && [] + [b] == [b];
    } else {
      assert (s + [b])[1..] == s[1..] + [b];
      BitsNatSnoc(s[1..], b);
    }
  }

  lemma ConcatStep(low: int, x: int, p: int, v: int)
    ensures low + 2 * (x + p * v) == (low + 2 * x) + (2 * p) * v
  {
  }

  lemma {:induction false} BitsNatConcat(s: seq<bool>, t: seq<bool>)
    ensures BitsNat(s + t) == BitsNat(s) + Pow2(|s|) * BitsNat(t)
  {
    if s == [] {
      assert [] + t == t;
    } else {
      assert (s + t)[1..] == s[1..] + t;
      BitsNatConcat(s[1..], t);
      ConcatStep(if s[0] then 1 else 0, BitsNat(s[1..]), Pow2(|s| - 1), BitsNat(t));
    }
  }

  lemma {:induction false} BitsNatZero(s: seq<bool>)
    ensures BitsNat(s) == 0 <==> s == Zeros(|s|)
  {
    if s != [] {
      BitsNatZero(s[1..]);
      assert s == [s[0]] + s[1..];
      assert Zeros(|s|) == [false] + Zeros(|s| - 1);
    }
  }

  /** Every packed entry is a byte. */
  lemma {:induction false} PackBelow(s: seq<bool>)
    ensures forall k | 0 <= k < |PackBytes(s)| :: PackBytes(s)[k] < 256
    decreases |s|
  {
    if |s| > 8 {
      PackBelow(s[8..]);
      ShortBelow(s[..8]);
    } else {
      ShortBelow(s);
    }
  }

  lemma ShortBelow(s: seq<bool>)
    requires |s| <= 8
    ensures BitsNat(s) < 256
  {
    BitsNatBound(s);
    Pow2Monotonic(|s|, 8);
    Pow2Of8();
  }

  lemma ByteOfBits(b: byte)
    ensures BitsNat(NatBits(b, 8)) == b
  {
    BitsNatOfNatBits(b, 8);
    Pow2Of8();
  }

  /** Packing the bits of a byte string gives the byte string. */
  lemma {:induction false} PackOctets(bytes: seq<byte>)
    ensures PackBytes(Octets(bytes)) == bytes
  {
    if bytes != [] {
      PackOctets(bytes[1..]);
      var s := Octets(bytes);
      OctetsNext(bytes);
      ByteOfBits(bytes[0]);
      if |s| == 8 {
        assert s == s[..8] && bytes == [bytes[0]];
      }
    }
  }

  // ---------- cutting a record into plaintexts ----------

  /** There are enough bits for every group but the last to be full: (w - 1) * b <= |s|. */
  predicate Cuttable(s: seq<bool>, b: nat, w: nat)
    decreases w
  {
    w <= 1 || (b <= |s| && Cuttable(s[b..], b, w - 1))
  }

  /** The first group: `b` bits, or all of them when there are no more. */
  function First(s: seq<bool>, b: nat): (r: seq<bool>)
    ensures |r| <= b
  {
    if b < |s| then s[..b] else s
  }

  /** Groups of `b` bits as numbers, `w` of them; the last group may be short or empty. */
  function Chunks(s: seq<bool>, b: nat, w: nat): (r: seq<nat>)
    requires Cuttable(s, b, w)
    ensures |r| == w
    decreases w
  {
    if w == 0 then []
    else if w == 1 then [BitsNat(First(s, b))]
    else [BitsNat(First(s, b))] + Chunks(s[b..], b, w - 1)
  }

  /** The bits the entries of a row stand for: all but the last give `b` bits, the last gives `rem`. */
  function RowBits(v: seq<nat>, b: nat, rem: nat): (r: seq<bool>)
  {
    if v == [] then []
    else if |v| == 1 then NatBits(v[0], rem)
    else NatBits(v[0], b) + RowBits(v[1..], b, rem)
  }

  function RowWidth(total: nat, b: nat): (w: nat)
    requires b > 0
  {
    if total % b != 0 then total / b + 1 else total / b
  }

  /** Every entry is a plaintext of `b` bits. */
  lemma {:induction false} ChunksBelow(s: seq<bool>, b: nat, w: nat)
    requires Cuttable(s, b, w)
    ensures forall j | 0 <= j < w :: Chunks(s, b, w)[j] < Pow2(b)
    decreases w
  {
    if w > 0 {
      var first := First(s, b);
      BitsNatBound(first);
      Pow2Monotonic(|first|, b);
      if w > 1 {
        ChunksBelow(s[b..], b, w - 1);
      }
    }
  }

  /** Enough bits means that all groups but the last are full. */
  lemma {:induction false} CuttableIff(s: seq<bool>, b: nat, w: nat)
    requires b > 0 && w > 0
    ensures Cuttable(s, b, w) <==> (w - 1) * b <= |s|
    decreases w
  {
    if w > 1 {
      assert (w - 1) * b == (w - 2) * b + b;
      MulNonnegative(w - 2, b);
      if b <= |s| {
        CuttableIff(s[b..], b, w - 1);
      }
    }
  }

  lemma MulNonnegative(x: nat, y: nat)
    ensures x * y >= 0
  {
  }

  lemma RowBitsNext(s: seq<bool>, b: nat, w: nat, tail: seq<nat>, rem: nat)
    requires b > 0 && w > 1 && b <= |s| && Cuttable(s[b..], b, w - 1) && tail == Chunks(s[b..], b, w - 1)
    ensures Cuttable(s, b, w)
    ensures RowBits(Chunks(s, b, w), b, rem) == s[..b] + RowBits(tail, b, rem)
  {
    var v := Chunks(s, b, w);
    assert b == |s| ==> s == s[..b];
    assert v == [BitsNat(s[..b])] + tail;
    assert v[1..] == tail;
    NatBitsOfBitsNat(s[..b]);
  }

  /** The first `k` bits of `s`, followed by zeros when there are not that many. */
  function Resize(s: seq<bool>, k: nat): (r: seq<bool>)
    ensures |r| == k
  {
    if k <= |s| then s[..k] else s + Zeros(k - |s|)
  }

  lemma ResizeNext(s: seq<bool>, b: nat, k: nat)
    requires b <= |s| && b <= k
    ensures s[..b] + Resize(s[b..], k - b) == Resize(s, k)
  {
  }

  /** The low bits of a group are its first bits. */
  lemma FirstBits(s: seq<bool>, b: nat, rem: nat)
    requires rem < b
    ensures NatBits(BitsNat(First(s, b)), rem) == Resize(s, rem)
  {
    var first := First(s, b);
    NatBitsOfBitsNat(first);
    if rem <= |first| {
      NatBitsPrefix(BitsNat(first), rem, |first|);
    } else {
      BitsNatBound(s);
      ShiftAllOut(BitsNat(s), |s|);
      NatBitsWide(BitsNat(s), |s|, rem - |s|);
    }
  }

  lemma OneGroupLess(n: nat, b: nat, full: nat)
    requires n > 0 && full == n * b
    ensures full - b == (n - 1) * b >= 0
  {
  }

  /** Reading the entries back gives the bits, with as many of the last group as are asked for. */
  lemma {:induction false} RowBitsOfChunks(s: seq<bool>, b: nat, w: nat, rem: nat, full: nat)
    requires w > 0 && rem < b && full == (w - 1) * b && Cuttable(s, b, w)
    ensures RowBits(Chunks(s, b, w), b, rem) == Resize(s, full + rem)
    decreases w
  {
    if w == 1 {
      assert full == 0;
      FirstBits(s, b, rem);
    } else {
      OneGroupLess(w - 1, b, full);
      RowBitsOfChunks(s[b..], b, w - 1, rem, full - b);
      RowBitsNext(s, b, w, Chunks(s[b..], b, w - 1), rem);
      ResizeNext(s, b, full + rem);
    }
  }

  // ---------- the record round trip ----------

  lemma ProductIsZero(p: int, v: int)
    requires p > 0
    ensures p * v == 0 <==> v == 0
  {
  }

  /** Dropping the last `b` bits of a single byte loses nothing exactly when they are zeros. */
  lemma PackShortByte(x: byte, s: seq<bool>, k: nat)
    requires s == NatBits(x, 8) && 0 < k < 8
    ensures PackBytes(s[..k]) == [x] <==> s[k..] == Zeros(8 - k)
  {
    ByteOfBits(x);
    assert s == s[..k] + s[k..];
    BitsNatConcat(s[..k], s[k..]);
    ProductIsZero(Pow2(k), BitsNat(s[k..]));
    BitsNatZero(s[k..]);
  }

  lemma PackFirstByte(x: byte, s: seq<bool>, rest: seq<nat>)
    requires |s| > 8 && s[..8] == NatBits(x, 8)
    ensures PackBytes(s) == [x] + rest <==> PackBytes(s[8..]) == rest
  {
    ByteOfBits(x);
    var packed := PackBytes(s);
    assert packed == [x] + PackBytes(s[8..]);
    assert packed[1..] == PackBytes(s[8..]) && ([x] + rest)[1..] == rest;
  }

  lemma OctetsNext(record: seq<byte>)
    requires record != []
    ensures Octets(record)[..8] == NatBits(record[0], 8) && Octets(record)[8..] == Octets(record[1..])
    ensures record == [record[0]] + record[1..]
  {
  }

  lemma SliceShift(s: seq<bool>, k: nat)
    requires 8 <= k <= |s|
    ensures s[..k][..8] == s[..8] && s[..k][8..] == s[8..][..k - 8] && s[k..] == s[8..][k - 8..]
  {
  }

  lemma PackPrefixNext(x: byte, s: seq<bool>, k: nat, rest: seq<byte>)
    requires 8 < k <= |s| && s[..8] == NatBits(x, 8)
    requires PackBytes(s[8..][..k - 8]) == rest <==> s[8..][k - 8..] == Zeros(|s| - k)
    ensures PackBytes(s[..k]) == [x] + rest <==> s[k..] == Zeros(|s| - k)
  {
    SliceShift(s, k);
    PackFirstByte(x, s[..k], rest);
  }

  /** Dropping bits of the last byte before packing loses nothing exactly when they are zeros. */
  lemma {:induction false} PackPrefix(record: seq<byte>, s: seq<bool>, k: nat)
    requires s == Octets(record) && k < |s| < k + 8
    ensures PackBytes(s[..k]) == record <==> s[k..] == Zeros(|s| - k)
  {
    OctetsNext(record);
    if |record| == 1 {
      assert s == s[..8];
      PackShortByte(record[0], s, k);
    } else {
      PackPrefix(record[1..], s[8..], k - 8);
      PackPrefixNext(record[0], s, k, record[1..]);
    }
  }

  /** Keeping `k` bits loses nothing exactly when what is dropped lies inside the last byte and is zeros. */
  lemma PackResized(record: seq<byte>, k: nat)
    ensures var s := Octets(record);
            PackBytes(Resize(s, k)) == record <==> k <= |s| < k + 8 && s[k..] == Zeros(|s| - k)
  {
    var s := Octets(record);
    if k == |s| {
      PackOctets(record);
      assert s[..k] == s;
    } else if k < |s| < k + 8 {
      PackPrefix(record, s, k);
    } else {
      assert |PackBytes(Resize(s, k))| != |record|;
    }
  }

  /** The row a record of `elemSize` bits becomes. */
  function RecordRow(record: seq<byte>, elemSize: nat, b: nat): (row: seq<nat>)
    requires b > 0 && Cuttable(Octets(record), b, RowWidth(elemSize, b))
    ensures |row| == RowWidth(elemSize, b) && forall j | 0 <= j < |row| :: row[j] < Pow2(b)
  {
    ChunksBelow(Octets(record), b, RowWidth(elemSize, b));
    Chunks(Octets(record), b, RowWidth(elemSize, b))
  }

  /** How many bits are read back: the whole element, or all but its last group when the groups
      divide it. */
  function Kept(elemSize: nat, b: nat): (k: nat)
    requires b > 0 && elemSize > 0
  {
    KeptIs(elemSize, b);
    if elemSize % b != 0 then elemSize else elemSize - b
  }

  lemma KeptIs(elemSize: nat, b: nat)
    requires b > 0 && elemSize > 0
    ensures RowWidth(elemSize, b) > 0 && (elemSize % b == 0 ==> b <= elemSize)
    ensures (RowWidth(elemSize, b) - 1) * b + elemSize % b == if elemSize % b != 0 then elemSize else elemSize - b
  {
    var q, r := elemSize / b, elemSize % b;
    assert elemSize == q * b + r;
    if r == 0 {
      assert q >= 1;
      assert (q - 1) * b + b == q * b;
      MulNonnegative(q - 1, b);
    }
  }

  lemma RowBitsOfRecord(s: seq<bool>, elemSize: nat, b: nat)
    requires b > 0 && elemSize > 0 && Cuttable(s, b, RowWidth(elemSize, b))
    ensures RowBits(Chunks(s, b, RowWidth(elemSize, b)), b, elemSize % b) == Resize(s, Kept(elemSize, b))
  {
    var w := RowWidth(elemSize, b);
    KeptIs(elemSize, b);
    RowBitsOfChunks(s, b, w, elemSize % b, (w - 1) * b);
  }

  /** Reading a record back from its row returns the record exactly when the bits that are not read
      back lie inside its last byte and are zeros. */
  lemma RecordRoundTrip(record: seq<byte>, elemSize: nat, b: nat)
    requires b > 0 && elemSize > 0 && Cuttable(Octets(record), b, RowWidth(elemSize, b))
    ensures var s, k := Octets(record), Kept(elemSize, b);
            PackBytes(RowBits(RecordRow(record, elemSize, b), b, elemSize % b)) == record <==>
            k <= |s| < k + 8 && s[k..] == Zeros(|s| - k)
  {
    RowBitsOfRecord(Octets(record), elemSize, b);
    PackResized(record, Kept(elemSize, b));
  }

  /** Records of exactly `elemSize` bits come back whole whenever the groups do not divide them. */
  lemma WholeRecordRoundTrip(record: seq<byte>, b: nat)
    requires b > 0 && record != [] && 8 * |record| % b != 0
    ensures var elemSize := 8 * |record|;
            && Cuttable(Octets(record), b, RowWidth(elemSize, b))
            && PackBytes(RowBits(RecordRow(record, elemSize, b), b, elemSize % b)) == record
  {
    var elemSize := 8 * |record|;
    KeptIs(elemSize, b);
    CuttableIff(Octets(record), b, RowWidth(elemSize, b));
    RecordRoundTrip(record, elemSize, b);
  }

  /** When the groups divide the record, it comes back exactly when its last group is inside the last byte
      and is zeros; with groups of a byte or more it never does. */
  lemma DividedRecordRoundTrip(record: seq<byte>, b: nat)
    requires b > 0 && record != [] && 8 * |record| % b == 0
    ensures var elemSize, s := 8 * |record|, Octets(record);
            && b <= elemSize && Cuttable(s, b, RowWidth(elemSize, b))
            && (PackBytes(RowBits(RecordRow(record, elemSize, b), b, elemSize % b)) == record <==>
                b < 8 && s[elemSize - b..] == Zeros(b))
  {
    var elemSize := 8 * |record|;
    KeptIs(elemSize, b);
    CuttableIff(Octets(record), b, RowWidth(elemSize, b));
    RecordRoundTrip(record, elemSize, b);
  }

  /** The byte 1 as one plaintext of eight bits: nothing is read back. */
  lemma LostRecord()
    ensures RowWidth(8, 8) == 1 && Cuttable(Octets([1]), 8, 1)
    ensures PackBytes(RowBits(RecordRow([1], 8, 8), 8, 0)) == []
  {
    var row := RecordRow([1], 8, 8);
    assert |row| == 1;
    assert RowBits(row, 8, 0) == NatBits(row[0], 0) == [];
  }

  // ---------- the functions above, bit by bit ----------

  lemma OctetsAt(bytes: seq<byte>, i: nat, j: nat)
    requires i < |bytes| && j < 8
    ensures Octets(bytes)[8 * i + j] == Bit(bytes[i], j)
  {
    ArrBitsAt(bytes, 8, i, 8 * i);
    var s := Octets(bytes);
    assert s[8 * i + j] == s[8 * i..8 * i + 8][j];
    NatBitsAt(bytes[i], 8, j);
  }

  /** Bit `k` of entry `j` is bit j * b + k of the record, while there is one, and 0 after that. */
  lemma {:induction false} ChunksAt(s: seq<bool>, b: nat, w: nat, j: nat, k: nat, lo: nat)
    requires Cuttable(s, b, w) && j < w && k < b && lo == j * b
    ensures Bit(Chunks(s, b, w)[j], k) == (lo + k < |s| && s[lo + k])
    decreases w
  {
    if j == 0 {
      FirstAt(s, b, k);
    } else {
      OneMore(b, j);
      ChunksAt(s[b..], b, w - 1, j - 1, k, lo - b);
    }
  }

  lemma FirstAt(s: seq<bool>, b: nat, k: nat)
    requires k < b
    ensures Bit(BitsNat(First(s, b)), k) == (k < |s| && s[k])
  {
    var first := First(s, b);
    var v := BitsNat(first);
    NatBitsOfBitsNat(first);
    if k < |first| {
      NatBitsAt(v, |first|, k);
    } else {
      BitsNatBound(first);
      ShiftAllOut(v, |first|);
      NatBitsWide(v, |first|, k + 1 - |first|);
      NatBitsAt(v, k + 1, k);
    }
  }
}
