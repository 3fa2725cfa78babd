/** The matrix type: one flat vector of 32-bit words, row after row. */
module Matrices {
  import opened LinearAlgebra

  /** A matrix as a sequence of rows. */
  type Grid = seq<seq<u32>>

  predicate Rect(g: Grid, w: nat)
  {
    forall i | 0 <= i < |g| :: |g[i]| == w
  }

  /** A column, as words. */
  function Words(g: Grid, j: nat): (r: seq<u32>)
    requires forall i | 0 <= i < |g| :: j < |g[i]|
    ensures r == Column(g, j)
  {
    seq(|g|, i requires 0 <= i < |g| => g[i][j])
  }

  /** The wrapping matrix product. */
  function Product(a: Grid, b: Grid, w: nat): (r: Grid)
    requires Rect(a, |b|) && Rect(b, w)
    ensures |r| == |a| && Rect(r, w)
  {
    seq(|a|, i requires 0 <= i < |a| => seq(w, j requires 0 <= j < w => Wrap(Dot(a[i], Column(b, j)))))
  }

  /** The wrapping product of a matrix and a column vector. */
  function Apply(g: Grid, v: seq<u32>): (r: seq<u32>)
    requires Rect(g, |v|)
    ensures |r| == |g|
  {
    seq(|g|, i requires 0 <= i < |g| => Wrap(Dot(g[i], v)))
  }

  function Transposed(a: Grid, w: nat): (r: Grid)
    requires Rect(a, w)
    ensures |r| == w && Rect(r, |a|)
  {
    seq(w, j requires 0 <= j < w => Words(a, j))
  }

  function Sum(a: Grid, b: Grid, w: nat): (r: Grid)
    requires |a| == |b| && Rect(a, w) && Rect(b, w)
    ensures |r| == |a| && Rect(r, w)
  {
    seq(|a|, i requires 0 <= i < |a| => seq(w, j requires 0 <= j < w => WrappingAdd(a[i][j], b[i][j])))
  }

  lemma TransposeTwice(a: Grid, w: nat)
    requires Rect(a, w)
    ensures Transposed(Transposed(a, w), |a|) == a
  {
    var t := Transposed(Transposed(a, w), |a|);
    forall i | 0 <= i < |a|
      ensures t[i] == a[i]
    {
    }
  }

  /** The transpose of a product is the product of the transposes, in the other order. */
  lemma TransposeProduct(a: Grid, b: Grid, w: nat)
    requires Rect(a, |b|) && Rect(b, w)
    ensures Transposed(Product(a, b, w), w) == Product(Transposed(b, w), Transposed(a, |b|), |a|)
  {
    var left, right := Transposed(Product(a, b, w), w), Product(Transposed(b, w), Transposed(a, |b|), |a|);
    forall j | 0 <= j < w
      ensures left[j] == right[j]
    {
      forall i | 0 <= i < |a|
        ensures left[j][i] == right[j][i]
      {
        assert Column(Transposed(a, |b|), i) == a[i];
        DotCommutes(a[i], Column(b, j));
      }
    }
  }

  /** Row `i` of a product is row `i` of the left operand against the transposed right operand. */
  lemma ProductRowIs(a: Grid, b: Grid, w: nat, i: nat)
    requires Rect(a, |b|) && Rect(b, w) && i < |a|
    ensures Product(a, b, w)[i] == Apply(Transposed(b, w), a[i])
  {
    forall j | 0 <= j < w
      ensures Product(a, b, w)[i][j] == Apply(Transposed(b, w), a[i])[j]
    {
      DotCommutes(a[i], Column(b, j));
    }
  }

  // ---------- the flat layout ----------

  lemma RowBound(i: nat, rows: nat, cols: nat)
    requires i < rows
    ensures i * cols + cols <= rows * cols
  {
    assert (i + 1) * cols <= rows * cols;
  }

  /** Row `i` of a flat vector. */
  function RowAt(e: seq<u32>, rows: nat, cols: nat, i: nat): (r: seq<u32>)
    requires i < rows && rows * cols <= |e|
    ensures |r| == cols
  {
    RowBound(i, rows, cols);
    e[i * cols..i * cols + cols]
  }

  /** The rows of a flat vector; anything past rows * cols is not looked at. */
  function RowsOf(e: seq<u32>, rows: nat, cols: nat): (r: Grid)
    requires rows * cols <= |e|
    ensures |r| == rows && Rect(r, cols)
  {
    seq(rows, i requires 0 <= i < rows => RowAt(e, rows, cols, i))
  }

  function Flatten(g: Grid): (e: seq<u32>)
  {
    if g == [] then [] else Flatten(g[..|g| - 1]) + g[|g| - 1]
  }

  lemma {:induction false} FlattenLength(g: Grid, w: nat)
    requires Rect(g, w)
    ensures |Flatten(g)| == |g| * w
  {
    if g != [] {
      FlattenLength(g[..|g| - 1], w);
      assert (|g| - 1) * w + w == |g| * w;
    }
  }

  lemma FlattenSnoc(g: Grid, row: seq<u32>)
    ensures Flatten(g + [row]) == Flatten(g) + row
  {
    assert (g + [row])[..|g|] == g;
  }

  lemma FlattenNext(g: Grid, i: nat)
    requires i < |g|
    ensures Flatten(g[..i + 1]) == Flatten(g[..i]) + g[i]
  {
    assert g[..i + 1] == g[..i] + [g[i]];
    FlattenSnoc(g[..i], g[i]);
  }

  /** Row `i` of a flat layout, whatever follows it. */
  lemma {:induction false} FlattenAt(g: Grid, w: nat, tail: seq<u32>, i: nat, lo: nat)
    requires Rect(g, w) && i < |g| && lo == i * w
    ensures lo + w <= |Flatten(g) + tail| && (Flatten(g) + tail)[lo..lo + w] == g[i]
  {
    var n := |g| - 1;
    var init, last := g[..n], g[n];
    assert Flatten(g) + tail == Flatten(init) + (last + tail);
    if i == n {
      FlattenLength(init, w);
    } else {
      FlattenAt(init, w, last + tail, i, lo);
    }
  }

  /** Laying rows out flat and cutting them up again gives the rows back. */
  lemma RowsOfFlatten(g: Grid, w: nat, tail: seq<u32>)
    requires Rect(g, w)
    ensures |g| * w <= |Flatten(g) + tail| && RowsOf(Flatten(g) + tail, |g|, w) == g
  {
    FlattenLength(g, w);
    forall i | 0 <= i < |g|
      ensures RowsOf(Flatten(g) + tail, |g|, w)[i] == g[i]
    {
      FlattenAt(g, w, tail, i, i * w);
    }
  }

  /** A prefix of the rows leaves room for the next one. */
  lemma {:induction false} FlattenRoom(g: Grid, i: nat)
    requires i < |g|
    ensures |Flatten(g[..i])| + |g[i]| <= |Flatten(g)|
  {
    var n := |g| - 1;
    if i < n {
      FlattenRoom(g[..n], i);
      assert g[..n][..i] == g[..i];
    }
  }

  /** Adding flat vectors entry by entry adds the matrices. */
  lemma SumOfRows(x: seq<u32>, y: seq<u32>, z: seq<u32>, rows: nat, cols: nat)
    requires rows * cols <= |x| && rows * cols <= |y| && rows * cols <= |z|
    requires forall k | 0 <= k < rows * cols :: z[k] == WrappingAdd(x[k], y[k])
    ensures RowsOf(z, rows, cols) == Sum(RowsOf(x, rows, cols), RowsOf(y, rows, cols), cols)
  {
    var s := Sum(RowsOf(x, rows, cols), RowsOf(y, rows, cols), cols);
    forall i | 0 <= i < rows
      ensures RowAt(z, rows, cols, i) == s[i]
    {
      RowBound(i, rows, cols);
      forall j | 0 <= j < cols
        ensures RowAt(z, rows, cols, i)[j] == s[i][j]
      {
        var k := i * cols + j;
        assert z[k] == WrappingAdd(x[k], y[k]);
      }
    }
  }

  lemma SliceOfPrefix(e: seq<u32>, e': seq<u32>, len: nat, lo: nat, hi: nat)
    requires lo <= hi <= len <= |e| && len <= |e'| && e'[..len] == e[..len]
    ensures e'[lo..hi] == e[lo..hi]
  {
    assert e'[lo..hi] == e'[..len][lo..hi];
    assert e[lo..hi] == e[..len][lo..hi];
  }

  /** Cutting fewer rows gives a prefix. */
  lemma RowsPrefix(e: seq<u32>, e': seq<u32>, m: nat, n: nat, cols: nat)
    requires m <= n && m * cols <= n * cols <= |e| && m * cols <= |e'| && e'[..m * cols] == e[..m * cols]
    ensures RowsOf(e', m, cols) == RowsOf(e, n, cols)[..m]
  {
    forall i | 0 <= i < m
      ensures RowAt(e', m, cols, i) == RowAt(e, n, cols, i)
    {
      RowBound(i, m, cols);
      SliceOfPrefix(e, e', m * cols, i * cols, i * cols + cols);
    }
  }

  // ---------- the object ----------

  datatype Option<T> = None | Some(value: T)
  datatype Result<T> = Ok(value: T) | Err

  class Matrix {
    var rows: nat
    var cols: nat
    var n: nat
    var elements: seq<u32>

    /** The vector covers the declared shape; it may be longer. */
    ghost predicate Valid()
      reads this
    {
      n == rows * cols && n <= |elements|
    }

    /** The vector holds the declared shape and nothing more. */
    ghost predicate Exact()
      reads this
    {
      Valid() && |elements| == n
    }

    ghost function Contents(): (g: Grid)
      requires Valid()
      reads this
      ensures |g| == rows && Rect(g, cols)
    {
      RowsOf(elements, rows, cols)
    }

    constructor WithVector(elements: seq<u32>, rows: nat, cols: nat)
      requires rows > 0 && cols > 0
      ensures this.rows == rows && this.cols == cols && this.n == rows * cols && this.elements == elements
    {
      this.rows, this.cols, this.n, this.elements := rows, cols, rows * cols, elements;
    }

    predicate IsEmpty()
      reads this
    {
      rows == 0 && elements == []
    }

    function At(i: nat, j: nat): (x: u32)
      requires Valid() && i < rows && j < cols
      reads this
      ensures x == Contents()[i][j]
    {
      RowBound(i, rows, cols);
      elements[i * cols + j]
    }

    /** Writes column `i` at `v[at..]`. */
    method TransposeRow(v: array<u32>, at: nat, i: nat)
      requires Valid() && i < cols && at + rows <= v.Length
      modifies v
      ensures v[..at + rows] == old(v[..at]) + Column(Contents(), i)
    {
      for j := 0 to rows
        invariant forall k | 0 <= k < at :: v[k] == old(v[k])
        invariant forall k | 0 <= k < j :: v[at + k] == Column(Contents(), i)[k]
      {
        v[at + j] := At(j, i);
      }
    }

    method Transpose() returns (t: Matrix)
      requires Valid() && rows > 0 && cols > 0
      ensures fresh(t) && t.Exact() && t.rows == cols && t.cols == rows
      ensures t.Contents() == Transposed(Contents(), cols)
    {
      var v := new u32[n];
      ghost var g := Transposed(Contents(), cols);
      assert |Flatten(g)| == n by { FlattenLength(g, rows); }
      var at := 0;
      for i := 0 to cols
        invariant at == |Flatten(g[..i])| <= v.Length
        invariant v[..at] == Flatten(g[..i])
      {
        FlattenRoom(g, i);
        TransposeRow(v, at, i);
        FlattenNext(g, i);
        at := at + rows;
      }
      assert v[..] == Flatten(g) + [] by {
        assert g[..cols] == g && v[..at] == v[..];
      }
      RowsOfFlatten(g, rows, []);
      t := new Matrix.WithVector(v[..], cols, rows);
    }

    /** One entry of the naive product. */
    static method NaiveEntry(a: Matrix, b: Matrix, i: nat, j: nat) returns (sum: u32)
      requires a.Valid() && b.Valid() && a.cols == b.rows && i < a.rows && j < b.cols
      ensures sum == Wrap(Dot(a.Contents()[i], Column(b.Contents(), j)))
    {
      sum := 0;
      ghost var u, v := a.Contents()[i], Column(b.Contents(), j);
      for k := 0 to a.cols
        invariant sum == Wrap(Dot(u[..k], v[..k]))
      {
        Accumulate(Dot(u[..k], v[..k]), u[k], v[k]);
        DotNext(u, v, k);
        sum := WrappingAdd(sum, WrappingMul(a.At(i, k), b.At(k, j)));
      }
      assert u[..a.cols] == u && v[..a.cols] == v;
    }

    static method MultNaive(a: Matrix, b: Matrix) returns (p: Matrix)
      requires a.Valid() && b.Valid() && a.cols == b.rows && a.rows > 0 && b.cols > 0
      ensures fresh(p) && p.Exact() && p.rows == a.rows && p.cols == b.cols
      ensures p.Contents() == Product(a.Contents(), b.Contents(), b.cols)
    {
      var c: seq<u32> := [];
      ghost var g := Product(a.Contents(), b.Contents(), b.cols);
      for i := 0 to a.rows
        invariant c == Flatten(g[..i])
      {
        for j := 0 to b.cols
          invariant c == Flatten(g[..i]) + g[i][..j]
        {
          var sum := NaiveEntry(a, b, i, j);
          assert g[i][..j + 1] == g[i][..j] + [g[i][j]];
          c := c + [sum];
        }
        assert g[i][..b.cols] == g[i];
        FlattenNext(g, i);
      }
      assert g[..a.rows] == g && c == Flatten(g) + [];
      FlattenLength(g, b.cols);
      RowsOfFlatten(g, b.cols, []);
      p := new Matrix.WithVector(c, a.rows, b.cols);
    }

    /** One row of a product: a row against every row of the transposed right operand. */
    static method ProductRow(aRow: seq<u32>, t: seq<u32>, rows: nat, c: array<u32>, at: nat)
      requires rows * |aRow| <= |t| && at + rows <= c.Length
      modifies c
      ensures c[..at + rows] == old(c[..at]) + Apply(RowsOf(t, rows, |aRow|), aRow)
    {
      ghost var g := RowsOf(t, rows, |aRow|);
      for j := 0 to rows
        invariant forall k | 0 <= k < at :: c[k] == old(c[k])
        invariant forall k | at <= k < at + j :: c[k] == Apply(g, aRow)[k - at]
      {
        var tRow := RowAt(t, rows, |aRow|, j);
        var d := WrappingDot(aRow, tRow);
        DotCommutes(aRow, g[j]);
        c[at + j] := d;
      }
    }

    /** All rows of a product, flat. */
    static method ProductRows(left: seq<u32>, right: seq<u32>, m: nat, n: nat, k: nat, ghost g: Grid)
      returns (r: seq<u32>)
      requires m * k <= |left| && n * k <= |right| && |g| == m && Rect(g, n)
      requires forall i | 0 <= i < m :: g[i] == Apply(RowsOf(right, n, k), RowAt(left, m, k, i))
      ensures r == Flatten(g)
    {
      var size := m * n;
      assert |Flatten(g)| == size by { FlattenLength(g, n); }
      var c := new u32[size];
      var at := 0;
      for i := 0 to m
        invariant at == |Flatten(g[..i])| <= c.Length
        invariant c[..at] == Flatten(g[..i])
      {
        FlattenRoom(g, i);
        var aRow := RowAt(left, m, k, i);
        ProductRow(aRow, right, n, c, at);
        FlattenNext(g, i);
        at := at + n;
      }
      assert g[..m] == g && c[..at] == c[..];
      r := c[..];
    }

    static method MultTranspose(a: Matrix, b: Matrix) returns (p: Matrix)
      requires a.Valid() && b.Valid() && a.cols == b.rows && a.rows > 0 && b.rows > 0 && b.cols > 0
      ensures fresh(p) && p.Exact() && p.rows == a.rows && p.cols == b.cols
      ensures p.Contents() == Product(a.Contents(), b.Contents(), b.cols)
    {
      var m, n := a.rows, b.cols;
      var transposed := b.Transpose();
      ghost var ga, gb := a.Contents(), b.Contents();
      ghost var g := Product(ga, gb, n);
      forall i | 0 <= i < m
        ensures g[i] == Apply(transposed.Contents(), RowAt(a.elements, m, a.cols, i))
      {
        assert ga[i] == RowAt(a.elements, m, a.cols, i);
        ProductRowIs(ga, gb, n, i);
      }
      var c := ProductRows(a.elements, transposed.elements, m, n, a.cols, g);
      assert c == Flatten(g) + [];
      RowsOfFlatten(g, n, []);
      FlattenLength(g, n);
      p := new Matrix.WithVector(c, m, n);
    }

    method MultByVector(vector: seq<u32>) returns (r: Result<seq<u32>>)
      requires Valid()
      ensures r == if |vector| != cols then Err else Ok(Apply(Contents(), vector))
    {
      if |vector| != cols {
        return Err;
      }
      var result := ApplyRows(elements, rows, vector);
      r := Ok(result);
    }

    method Add(b: Matrix)
      requires Valid() && b.Valid() && this != b && rows == b.rows && cols == b.cols
      modifies this`elements
      ensures Valid() && |elements| == old(|elements|) && elements[n..] == old(elements[n..])
      ensures Contents() == Sum(old(Contents()), b.Contents(), cols)
    {
      for i := 0 to n
        invariant |elements| == old(|elements|)
        invariant forall k | 0 <= k < i :: elements[k] == WrappingAdd(old(elements)[k], b.elements[k])
        invariant forall k | i <= k < |elements| :: elements[k] == old(elements)[k]
      {
        elements := elements[i := WrappingAdd(elements[i], b.elements[i])];
      }
      SumOfRows(old(elements), b.elements, elements, rows, cols);
    }

    method PopRow() returns (row: Option<seq<u32>>)
      requires Valid()
      modifies this`rows, this`n, this`elements
      ensures Valid() && (old(Exact()) ==> Exact())
      ensures old(rows) == 0 ==> row == None && elements == old(elements) && rows == 0
      ensures old(rows) > 0 ==> rows == old(rows) - 1
      ensures old(rows) > 0 ==> row == Some(old(Contents())[rows]) && Contents() == old(Contents())[..rows]
    {
      if rows == 0 {
        return None;
      }
      var start := (rows - 1) * cols;
      var end := rows * cols;
      assert start + cols == end;
      var last := elements[start..end];
      assert last == RowAt(elements, rows, cols, rows - 1);
      elements := elements[..start] + elements[end..];
      rows := rows - 1;
      n := n - cols;
      RowsPrefix(old(elements), elements, rows, rows + 1, cols);
      row := Some(last);
    }

    method PushRow(row: seq<u32>) returns (r: Result<()>)
      requires Valid()
      modifies this`rows, this`n, this`elements
      ensures Valid() && (old(Exact()) ==> Exact())
      ensures |row| != cols ==> r == Err && rows == old(rows) && elements == old(elements)
      ensures |row| == cols ==> r == Ok(()) && rows == old(rows) + 1 && elements == old(elements) + row
      ensures |row| == cols && old(Exact()) ==> Contents() == old(Contents()) + [row]
    {
      if |row| != cols {
        return Err;
      }
      elements := elements + row;
      rows := rows + 1;
      n := n + cols;
      assert (rows - 1) * cols + cols == rows * cols;
      RowsPrefix(elements, old(elements), rows - 1, rows, cols);
      if old(Exact()) {
        assert RowAt(elements, rows, cols, rows - 1) == row;
        assert Contents()[..rows - 1] == old(Contents());
      }
      r := Ok(());
    }
  }

  /** A vector against every row of a flat matrix. */
  method ApplyRows(e: seq<u32>, rows: nat, vector: seq<u32>) returns (r: seq<u32>)
    requires rows * |vector| <= |e|
    ensures r == Apply(RowsOf(e, rows, |vector|), vector)
  {
    ghost var g := RowsOf(e, rows, |vector|);
    var result := new u32[rows];
    for i := 0 to rows
      invariant forall k | 0 <= k < i :: result[k] == Wrap(Dot(g[k], vector))
    {
      var row := RowAt(e, rows, |vector|, i);
      var d := WrappingDot(row, vector);
      result[i] := d;
    }
    r := result[..];
  }

  /** The wrapping dot product, accumulated left to right. */
  method WrappingDot(u: seq<u32>, v: seq<u32>) returns (acc: u32)
    requires |u| == |v|
    ensures acc == Wrap(Dot(u, v))
  {
    acc := 0;
    for k := 0 to |u|
      invariant acc == Wrap(Dot(u[..k], v[..k]))
    {
      Accumulate(Dot(u[..k], v[..k]), u[k], v[k]);
      DotNext(u, v, k);
      acc := WrappingAdd(acc, WrappingMul(u[k], v[k]));
    }
    assert u[..|u|] == u && v[..|u|] == v;
  }

  // ---------- the free-standing helpers ----------

  /** The checked dot product: vectors of different lengths are refused. */
  method VecMult(row: seq<u32>, col: seq<u32>) returns (r: Result<u32>)
    ensures r == if |row| != |col| then Err else Ok(Wrap(Dot(row, col)))
  {
    if |row| != |col| {
      return Err;
    }
    var acc := WrappingDot(row, col);
    r := Ok(acc);
  }

  /** Entry `secidx` of every row. */
  function GetMatrixSecondAt(matrix: Grid, secidx: nat): (r: seq<u32>)
    requires forall i | 0 <= i < |matrix| :: secidx < |matrix[i]|
    ensures |r| == |matrix|
  {
    Words(matrix, secidx)
  }

  /** Row i of the transpose is what picking entry i of every row gives. */
  method TransposeMatrix(matrix: Grid) returns (ret: Grid)
    requires matrix != [] && forall i | 0 <= i < |matrix| :: |matrix[0]| <= |matrix[i]|
    ensures |ret| == |matrix[0]|
    ensures forall i | 0 <= i < |ret| :: ret[i] == GetMatrixSecondAt(matrix, i)
    ensures forall i | 0 <= i < |ret| :: |ret[i]| == |matrix|
    ensures forall i, k | 0 <= i < |ret| && 0 <= k < |matrix| :: ret[i][k] == matrix[k][i]
  {
    var width := |matrix[0]|;
    ret := seq(width, _ => []);
    for r := 0 to |matrix|
      invariant |ret| == width
      invariant forall i | 0 <= i < width :: ret[i] == Column(matrix[..r], i)
    {
      var current := matrix[r];
      for i := 0 to width
        invariant |ret| == width
        invariant forall k | 0 <= k < i :: ret[k] == Column(matrix[..r + 1], k)
        invariant forall k | i <= k < width :: ret[k] == Column(matrix[..r], k)
      {
        assert matrix[..r + 1] == matrix[..r] + [current];
        ret := ret[i := ret[i] + [current[i]]];
      }
    }
    assert matrix[..|matrix|] == matrix;
  }
}
