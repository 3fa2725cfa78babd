/** The format conversions as the code performs them, and databases of records. */
module Records {
  import opened Numerals
  import opened LinearAlgebra
  import opened Matrices
  import opened Packing

  method U8ToBitsLe(b: byte) returns (r: seq<bool>)
    ensures r == NatBits(b, 8)
  {
    r := [];
    for i := 0 to 8
      invariant r == NatBits(b, 8)[..i]
    {
      NatBitsAt(b, 8, i);
      r := r + [Bit(b, i)];
    }
  }

  method BytesToBitsLe(bytes: seq<byte>) returns (r: seq<bool>)
    ensures r == Octets(bytes)
  {
    r := [];
    assert bytes[..0] == [];
    for i := 0 to |bytes|
      invariant r == Octets(bytes[..i])
    {
      var bits := U8ToBitsLe(bytes[i]);
      ArrBitsSnoc(bytes[..i], bytes[i], 8);
      assert bytes[..i + 1] == bytes[..i] + [bytes[i]];
      r := r + bits;
    }
    assert bytes[..|bytes|] == bytes;
  }

  /** The bits of byte `k` among the first `i` bits. */
  function Piece(s: seq<bool>, k: nat, i: nat): (r: seq<bool>)
    requires i <= |s|
  {
    if i <= 8 * k then [] else if i <= 8 * k + 8 then s[8 * k..i] else s[8 * k..8 * k + 8]
  }

  lemma PieceShift(s: seq<bool>, k: nat)
    requires k > 0 && |s| > 8 * k
    ensures Piece(s[8..], k - 1, |s| - 8) == Piece(s, k, |s|)
  {
  }

  lemma {:induction false} PackAt(s: seq<bool>, k: nat)
    requires k < (|s| + 7) / 8
    ensures PackBytes(s)[k] == BitsNat(Piece(s, k, |s|))
    decreases |s|
  {
    if k == 0 {
      assert |s| <= 8 ==> s[0..|s|] == s;
    } else {
      assert PackBytes(s) == [BitsNat(s[..8])] + PackBytes(s[8..]);
      PackAt(s[8..], k - 1);
      PieceShift(s, k);
    }
  }

  lemma PieceNext(s: seq<bool>, k: nat, i: nat)
    requires i < |s|
    ensures Piece(s, k, i + 1) == if i / 8 == k then Piece(s, k, i) + [s[i]] else Piece(s, k, i)
    ensures i / 8 == k ==> |Piece(s, k, i)| == i % 8
  {
  }

  lemma PieceValue(s: seq<bool>, k: nat, i: nat)
    requires i < |s|
    ensures BitsNat(Piece(s, k, i + 1)) == BitsNat(Piece(s, k, i)) + if i / 8 == k && s[i] then Pow2(i % 8) else 0
  {
    PieceNext(s, k, i);
    BitsNatSnoc(Piece(s, k, i), s[i]);
  }

  method BitsToBytesLe(bits: seq<bool>) returns (r: seq<byte>)
    ensures r == PackBytes(bits)
  {
    var n := (|bits| + 7) / 8;
    var bytes := new byte[n](_ => 0);
    for i := 0 to |bits|
      invariant forall k | 0 <= k < n :: bytes[k] == BitsNat(Piece(bits, k, i))
    {
      forall k | 0 <= k < n {
        PieceValue(bits, k, i);
      }
      if bits[i] {
        var idx := i / 8;
        ShortBelow(Piece(bits, idx, i + 1));
        bytes[idx] := bytes[idx] + Pow2(i % 8);
      }
    }
    r := bytes[..];
    forall k | 0 <= k < n
      ensures r[k] == PackBytes(bits)[k]
    {
      PackAt(bits, k);
    }
  }

  /** The number a little-endian byte string stands for. */
  function LeNat(bytes: seq<nat>): (x: nat)
  {
    if bytes == [] then 0 else bytes[0] + 256 * LeNat(bytes[1..])
  }

  lemma {:induction false} LeNatPadded(bytes: seq<nat>, n: nat)
    ensures LeNat(bytes + seq(n, _ => 0)) == LeNat(bytes)
    decreases |bytes| + n
  {
    if bytes != [] {
      assert (bytes + seq(n, _ => 0))[1..] == bytes[1..] + seq(n, _ => 0);
      LeNatPadded(bytes[1..], n);
    } else if n > 0 {
      assert ([] + seq(n, _ => 0))[1..] == [] + seq(n - 1, _ => 0);
      LeNatPadded([], n - 1);
    }
  }

  lemma {:induction false} LeNatOfPack(s: seq<bool>)
    ensures LeNat(PackBytes(s)) == BitsNat(s)
    decreases |s|
  {
    if |s| > 8 {
      LeNatOfPack(s[8..]);
      assert s == s[..8] + s[8..];
      BitsNatConcat(s[..8], s[8..]);
      Pow2Of8();
      assert PackBytes(s)[1..] == PackBytes(s[8..]);
    } else if s != [] {
      assert PackBytes(s)[1..] == [];
    }
  }

  method BitsToU32Le(bits: seq<bool>) returns (r: Result<nat>)
    ensures r == if |bits| <= 32 then Ok(BitsNat(bits)) else Err
  {
    var bytes := BitsToBytesLe(bits);
    var byteLen := |bytes|;
    if byteLen > 4 {
      return Err;
    }
    LeNatPadded(bytes, 4 - byteLen);
    LeNatOfPack(bits);
    bytes := bytes + seq(4 - byteLen, _ => 0);
    return Ok(LeNat(bytes));
  }

  /** The four little-endian bytes of a word. */
  function ToLeBytes(x: nat): (r: seq<byte>)
  {
    [x % 256, x / 256 % 256, x / 65536 % 256, x / 16777216 % 256]
  }

  lemma {:induction false} ManyBytes(x: nat, n: nat)
    ensures NatBits(x, 8 + n) == NatBits(x % 256, 8) + NatBits(x / 256, n)
  {
    NatBitsSplit(x, 8, n);
    ShiftByte(x);
    NatBitsLow(x);
  }

  lemma WordBits(x: nat)
    ensures Octets(ToLeBytes(x)) == NatBits(x, 32)
  {
    var b := ToLeBytes(x);
    FourBytes(b);
    assert NatBits(x, 32) == NatBits(b[0], 8) + (NatBits(b[1], 8) + (NatBits(b[2], 8) + NatBits(b[3], 8))) by {
      ManyBytes(x, 24);
      ManyBytes(x / 256, 16);
      ManyBytes(x / 65536, 8);
      NatBitsLow(x / 16777216);
      assert x / 256 / 256 == x / 65536 && x / 65536 / 256 == x / 16777216;
    }
  }

  lemma FourBytes(b: seq<byte>)
    requires |b| == 4
    ensures Octets(b) == NatBits(b[0], 8) + (NatBits(b[1], 8) + (NatBits(b[2], 8) + NatBits(b[3], 8)))
  {
    assert Octets(b) == NatBits(b[0], 8) + Octets(b[1..]);
    assert Octets(b[1..]) == NatBits(b[1], 8) + Octets(b[2..]);
    assert Octets(b[2..]) == NatBits(b[2], 8) + Octets(b[3..]);
    assert Octets(b[3..]) == NatBits(b[3], 8) + Octets([]);
  }

  method U32ToBitsLe(x: nat, bitLen: nat) returns (r: seq<bool>)
    requires bitLen <= 32
    ensures r == NatBits(x, bitLen)
  {
    var bits := BytesToBitsLe(ToLeBytes(x));
    WordBits(x);
    NatBitsPrefix(x, bitLen, 32);
    r := bits[..bitLen];
  }

  // ---------- rows back to bytes ----------

  /** All of an entry's bits but for the last entry, which gives the remainder. */
  method BytesFromU32Slice(v: seq<nat>, entryBitLen: nat, totalBitLen: nat) returns (r: seq<byte>)
    requires 0 < entryBitLen
    requires |v| > 1 ==> entryBitLen <= 32
    requires |v| > 0 ==> totalBitLen % entryBitLen <= 32
    ensures r == PackBytes(RowBits(v, entryBitLen, totalBitLen % entryBitLen))
  {
    var remainder := totalBitLen % entryBitLen;
    var bits: seq<bool> := [];
    for i := 0 to |v|
      invariant bits + RowBits(v[i..], entryBitLen, remainder) == RowBits(v, entryBitLen, remainder)
    {
      var more;
      if i != |v| - 1 {
        more := U32ToBitsLe(v[i], entryBitLen);
      } else {
        more := U32ToBitsLe(v[i], remainder);
      }
      assert v[i..][1..] == v[i + 1..];
      bits := bits + more;
    }
    assert v[|v|..] == [] && bits + [] == bits;
    r := BitsToBytesLe(bits);
  }

  // ---------- records to a database ----------

  /** There are enough bits, and no group is wider than a 32-bit word. */
  predicate Fits(s: seq<bool>, b: nat, w: nat)
    ensures Fits(s, b, w) ==> Cuttable(s, b, w)
    decreases w
  {
    w == 0 || (|First(s, b)| <= 32 && (w == 1 || (b <= |s| && Fits(s[b..], b, w - 1))))
  }

  /** The groups can be cut up to the first one that is too wide; past that one nothing is looked at. */
  predicate Sliceable(s: seq<bool>, b: nat, w: nat)
    decreases w
  {
    w <= 1 || |First(s, b)| > 32 || (b <= |s| && Sliceable(s[b..], b, w - 1))
  }

  /** The first `n` records exist and fit. */
  ghost predicate AllFit(vals: seq<seq<byte>>, n: nat, b: nat, w: nat)
  {
    n <= |vals| && forall i | 0 <= i < n :: Fits(Octets(vals[i]), b, w)
  }

  /** Plaintexts of at most 32 bits fit exactly when there are enough bits. */
  lemma {:induction false} NarrowFits(s: seq<bool>, b: nat, w: nat)
    requires b <= 32
    ensures Fits(s, b, w) <==> Cuttable(s, b, w)
    ensures Cuttable(s, b, w) ==> Sliceable(s, b, w)
    decreases w
  {
    if w > 1 && b <= |s| {
      NarrowFits(s[b..], b, w - 1);
    }
  }

  /** The group of `b` bits that starts at `start`, as a word. */
  method ChunkWord(s: seq<bool>, b: nat, start: nat) returns (r: Result<u32>)
    requires start <= |s|
    ensures r.Ok? <==> |First(s[start..], b)| <= 32
    ensures r.Ok? ==> r.value == BitsNat(First(s[start..], b))
  {
    var end := start + b;
    var chunk := if end < |s| then s[start..end] else s[start..];
    assert chunk == First(s[start..], b);
    var x := BitsToU32Le(chunk);
    if x.Err? {
      return Err;
    }
    BitsNatBound(chunk);
    Pow2Monotonic(|chunk|, 32);
    Pow2Of32();
    return Ok(x.value);
  }

  /** What is left to cut: `k` groups from `start` on, behind the words in `row`. */
  ghost predicate Remaining(s: seq<bool>, b: nat, w: nat, start: nat, k: nat, row: seq<u32>)
  {
    && start <= |s| && k > 0 && Sliceable(s[start..], b, k)
    && Fits(s, b, w) == Fits(s[start..], b, k)
    && (Fits(s, b, w) ==> row + Chunks(s[start..], b, k) == Chunks(s, b, w))
  }

  lemma RemainingNext(s: seq<bool>, b: nat, w: nat, start: nat, k: nat, row: seq<u32>, x: u32)
    requires k > 1 && Remaining(s, b, w, start, k, row)
    requires |First(s[start..], b)| <= 32 && x == BitsNat(First(s[start..], b))
    ensures Remaining(s, b, w, start + b, k - 1, row + [x])
  {
    var rest := s[start..];
    assert b <= |rest| && s[start + b..] == rest[b..];
    if Fits(s, b, w) {
      var tail := Chunks(rest[b..], b, k - 1);
      assert Chunks(rest, b, k) == [x] + tail;
      assert (row + [x]) + tail == row + ([x] + tail);
    }
  }

  lemma RemainingLast(s: seq<bool>, b: nat, w: nat, start: nat, row: seq<u32>)
    requires Remaining(s, b, w, start, 1, row)
    ensures Fits(s, b, w) <==> |First(s[start..], b)| <= 32
    ensures Fits(s, b, w) ==> Chunks(s, b, w) == row + [BitsNat(First(s[start..], b))]
  {
  }

  /** The row of one record: a word for each group, or the first failure. */
  method RecordWords(s: seq<bool>, b: nat, w: nat) returns (r: Result<seq<u32>>)
    requires w > 0 && Sliceable(s, b, w)
    ensures r.Ok? <==> Fits(s, b, w)
    ensures r.Ok? ==> r.value == Chunks(s, b, w)
  {
    var row: seq<u32> := [];
    var start: nat := 0;
    ghost var k: nat := w;
    assert s[0..] == s;
    for j := 0 to w - 1
      invariant k == w - j && Remaining(s, b, w, start, k, row)
    {
      var x := ChunkWord(s, b, start);
      if x.Err? {
        return Err;
      }
      RemainingNext(s, b, w, start, k, row, x.value);
      row, start, k := row + [x.value], start + b, k - 1;
    }
    RemainingLast(s, b, w, start, row);
    var last := ChunkWord(s, b, start);
    if last.Err? {
      return Err;
    }
    return Ok(row + [last.value]);
  }

  method PackRecord(record: seq<byte>, b: nat, w: nat) returns (r: Result<seq<u32>>)
    requires w > 0 && Sliceable(Octets(record), b, w)
    ensures r.Ok? <==> Fits(Octets(record), b, w)
    ensures r.Ok? ==> r.value == Chunks(Octets(record), b, w)
  {
    var bits := BytesToBitsLe(record);
    r := RecordWords(bits, b, w);
  }

  /** Each record that is reached exists and can be cut up to its first failure. */
  ghost predicate Reachable(vals: seq<seq<byte>>, rows: nat, b: nat, w: nat)
  {
    forall i | 0 <= i < rows && AllFit(vals, i, b, w) :: i < |vals| && Sliceable(Octets(vals[i]), b, w)
  }

  /** The rows of `g` are those of the first records. */
  ghost predicate Packed(g: Grid, vals: seq<seq<byte>>, b: nat, w: nat)
  {
    && AllFit(vals, |g|, b, w)
    && forall i | 0 <= i < |g| :: g[i] == Chunks(Octets(vals[i]), b, w)
  }

  lemma PackedNext(g: Grid, row: seq<u32>, vals: seq<seq<byte>>, b: nat, w: nat)
    requires Packed(g, vals, b, w) && |g| < |vals| && Fits(Octets(vals[|g|]), b, w)
    requires row == Chunks(Octets(vals[|g|]), b, w)
    ensures Packed(g + [row], vals, b, w)
  {
    var g' := g + [row];
    forall i | 0 <= i < |g'|
      ensures Fits(Octets(vals[i]), b, w) && g'[i] == Chunks(Octets(vals[i]), b, w)
    {
      if i < |g| {
        assert g'[i] == g[i];
      }
    }
  }

  /** The words of every record, one record after another. */
  method PackRecords(vals: seq<seq<byte>>, rows: nat, b: nat, w: nat) returns (r: Result<seq<u32>>, ghost g: Grid)
    requires w > 0 && Reachable(vals, rows, b, w)
    ensures r.Ok? <==> AllFit(vals, rows, b, w)
    ensures r.Ok? ==> |g| == rows && Rect(g, w) && r.value == Flatten(g) && Packed(g, vals, b, w)
  {
    var result: seq<u32> := [];
    g := [];
    for i := 0 to rows
      invariant |g| == i && Rect(g, w) && result == Flatten(g)
      invariant Packed(g, vals, b, w)
    {
      var row := PackRecord(vals[i], b, w);
      if row.Err? {
        return Err, g;
      }
      FlattenSnoc(g, row.value);
      PackedNext(g, row.value, vals, b, w);
      g := g + [row.value];
      result := result + row.value;
    }
    r := Ok(result);
  }

  /** The database of the first `rows` records, one record a row. */
  method NewFromVals(vals: seq<seq<byte>>, rows: nat, elemSize: nat, plaintextBits: nat) returns (r: Result<Matrix>)
    requires 0 < rows && elemSize > 0 && plaintextBits > 0
    requires Reachable(vals, rows, plaintextBits, RowWidth(elemSize, plaintextBits))
    ensures var w := RowWidth(elemSize, plaintextBits);
            && (r.Ok? <==> AllFit(vals, rows, plaintextBits, w))
            && (r.Ok? ==> fresh(r.value) && r.value.Exact() && r.value.rows == rows && r.value.cols == w &&
                          Packed(r.value.Contents(), vals, plaintextBits, w))
  {
    var rowWidth := elemSize / plaintextBits;
    if elemSize % plaintextBits != 0 {
      rowWidth := rowWidth + 1;
    }
    KeptIs(elemSize, plaintextBits);
    var result, g := PackRecords(vals, rows, plaintextBits, rowWidth);
    if result.Err? {
      return Err;
    }
    RowsOfFlatten(g, rowWidth, []);
    assert result.value == Flatten(g) + [];
    FlattenLength(g, rowWidth);
    var m := new Matrix.WithVector(result.value, rows, rowWidth);
    return Ok(m);
  }

  /** A record fits exactly when there are enough bits and its first group, the widest, fits a word. */
  lemma {:induction false} FitsIff(s: seq<bool>, b: nat, w: nat)
    ensures Fits(s, b, w) <==> Cuttable(s, b, w) && (w == 0 || |First(s, b)| <= 32)
    decreases w
  {
    if w > 1 && b <= |s| {
      FitsIff(s[b..], b, w - 1);
      assert |First(s[b..], b)| <= |First(s, b)|;
    }
  }
}
