/** Linear algebra over the integers, and modulo 2^32. Matrices are sequences of rows. */
module LinearAlgebra {

  const M: int := 0x1_0000_0000

  type u32 = x: int | 0 <= x < M

  /** What wrapping arithmetic keeps of an integer. */
  function Wrap(x: int): (r: u32)
  {
    x % M
  }

  function WrappingAdd(x: int, y: int): (r: u32) { Wrap(x + y) }
  function WrappingSub(x: int, y: int): (r: u32) { Wrap(x - y) }
  function WrappingMul(x: int, y: int): (r: u32) { Wrap(x * y) }

  /** Two integers wrap to the same word. */
  ghost predicate Same(x: int, y: int)
  {
    exists k :: x == y + k * M
  }

  lemma SameWrap(x: int, y: int)
    ensures Same(x, y) <==> Wrap(x) == Wrap(y)
  {
    assert x == M * (x / M) + x % M && y == M * (y / M) + y % M;
    if x % M == y % M {
      assert x == y + (x / M - y / M) * M;
    }
    if k :| x == y + k * M {
      assert x % M == y % M;
    }
  }

  function Dot(u: seq<int>, v: seq<int>): (r: int)
    requires |u| == |v|
  {
    if u == [] then 0 else u[0] * v[0] + Dot(u[1..], v[1..])
  }

  function Add(u: seq<int>, v: seq<int>): (r: seq<int>)
    requires |u| == |v|
    ensures |r| == |u|
  {
    seq(|u|, i requires 0 <= i < |u| => u[i] + v[i])
  }

  function Scale(k: int, v: seq<int>): (r: seq<int>)
    ensures |r| == |v|
  {
    seq(|v|, i requires 0 <= i < |v| => k * v[i])
  }

  /** The vector with `x` at `i` and 0 elsewhere. */
  function Unit(n: nat, i: nat, x: int): (r: seq<int>)
    requires i < n
    ensures |r| == n
  {
    seq(n, j requires 0 <= j < n => if j == i then x else 0)
  }

  /** The row vector `s` times the matrix `a`: a combination of the rows. */
  function VecMat(s: seq<int>, a: seq<seq<int>>, w: nat): (r: seq<int>)
    requires |s| == |a| && forall i | 0 <= i < |a| :: |a[i]| == w
    ensures |r| == w
  {
    if s == [] then seq(w, _ => 0) else Add(Scale(s[0], a[0]), VecMat(s[1..], a[1..], w))
  }

  /** The matrix `a` times the column vector `d`. */
  function MatVec(a: seq<seq<int>>, d: seq<int>): (r: seq<int>)
    requires forall i | 0 <= i < |a| :: |a[i]| == |d|
    ensures |r| == |a|
  {
    seq(|a|, i requires 0 <= i < |a| => Dot(a[i], d))
  }

  function Column(a: seq<seq<int>>, j: nat): (r: seq<int>)
    requires forall i | 0 <= i < |a| :: j < |a[i]|
    ensures |r| == |a|
  {
    seq(|a|, i requires 0 <= i < |a| => a[i][j])
  }

  lemma {:induction false} DotCommutes(u: seq<int>, v: seq<int>)
    requires |u| == |v|
    ensures Dot(u, v) == Dot(v, u)
  {
    if u != [] {
      DotCommutes(u[1..], v[1..]);
    }
  }

  lemma {:induction false} DotAdd(u: seq<int>, u': seq<int>, v: seq<int>)
    requires |u| == |u'| == |v|
    ensures Dot(Add(u, u'), v) == Dot(u, v) + Dot(u', v)
  {
    if u != [] {
      assert Add(u, u')[1..] == Add(u[1..], u'[1..]);
      DotAdd(u[1..], u'[1..], v[1..]);
      assert (u[0] + u'[0]) * v[0] == u[0] * v[0] + u'[0] * v[0];
    }
  }

  lemma {:induction false} DotScale(k: int, u: seq<int>, v: seq<int>)
    requires |u| == |v|
    ensures Dot(Scale(k, u), v) == k * Dot(u, v)
  {
    if u != [] {
      assert Scale(k, u)[1..] == Scale(k, u[1..]);
      DotScale(k, u[1..], v[1..]);
      assert (k * u[0]) * v[0] == k * (u[0] * v[0]);
      var x, y := u[0] * v[0], Dot(u[1..], v[1..]);
      assert k * x + k * y == k * (x + y);
    }
  }

  lemma {:induction false} DotZero(n: nat, v: seq<int>)
    requires |v| == n
    ensures Dot(seq(n, _ => 0), v) == 0
  {
    if n > 0 {
      assert seq(n, _ => 0)[1..] == seq(n - 1, _ => 0);
      DotZero(n - 1, v[1..]);
    }
  }

  lemma {:induction false} DotUnit(n: nat, i: nat, x: int, v: seq<int>)
    requires i < n == |v|
    ensures Dot(Unit(n, i, x), v) == x * v[i]
  {
    if i == 0 {
      assert Unit(n, 0, x)[1..] == seq(n - 1, _ => 0);
      DotZero(n - 1, v[1..]);
    } else {
      assert Unit(n, i, x)[1..] == Unit(n - 1, i - 1, x);
      DotUnit(n - 1, i - 1, x, v[1..]);
    }
  }

  /** Multiplying on the left and then on the right is multiplying on the right first. */
  lemma {:induction false} Associative(s: seq<int>, a: seq<seq<int>>, d: seq<int>)
    requires |s| == |a| && forall i | 0 <= i < |a| :: |a[i]| == |d|
    ensures Dot(VecMat(s, a, |d|), d) == Dot(s, MatVec(a, d))
  {
    if s == [] {
      DotZero(|d|, d);
    } else {
      Associative(s[1..], a[1..], d);
      assert MatVec(a, d)[1..] == MatVec(a[1..], d);
      DotAdd(Scale(s[0], a[0]), VecMat(s[1..], a[1..], |d|), d);
      DotScale(s[0], a[0], d);
    }
  }

  lemma {:induction false} VecMatAt(s: seq<int>, a: seq<seq<int>>, w: nat, j: nat)
    requires |s| == |a| && (forall i | 0 <= i < |a| :: |a[i]| == w) && j < w
    ensures VecMat(s, a, w)[j] == Dot(s, Column(a, j))
  {
    if s != [] {
      VecMatAt(s[1..], a[1..], w, j);
      assert Column(a, j)[1..] == Column(a[1..], j);
    }
  }

  /** Entries that wrap alike give dot products that wrap alike. */
  lemma {:induction false} DotSame(u: seq<int>, u': seq<int>, v: seq<int>)
    requires |u| == |u'| == |v| && forall i | 0 <= i < |u| :: Same(u[i], u'[i])
    ensures Same(Dot(u, v), Dot(u', v))
  {
    if u == [] {
      assert 0 == 0 + 0 * M;
    } else {
      DotSame(u[1..], u'[1..], v[1..]);
      var k :| u[0] == u'[0] + k * M;
      var l :| Dot(u[1..], v[1..]) == Dot(u'[1..], v[1..]) + l * M;
      assert u[0] * v[0] == u'[0] * v[0] + (k * v[0]) * M;
      assert Dot(u, v) == Dot(u', v) + (k * v[0] + l) * M;
    }
  }

  /** Sums of words that wrap alike wrap alike. */
  lemma SameAdd(x: int, x': int, y: int, y': int)
    requires Same(x, x') && Same(y, y')
    ensures Same(x + y, x' + y') && Same(x - y, x' - y')
  {
    var k :| x == x' + k * M;
    var l :| y == y' + l * M;
    assert x + y == x' + y' + (k + l) * M;
    assert x - y == x' - y' + (k - l) * M;
  }

  lemma SameWrapped(x: int)
    ensures Same(Wrap(x), x) && Same(x, Wrap(x))
  {
    assert x % M == x + (-(x / M)) * M;
    assert x == x % M + (x / M) * M;
  }

  lemma SameTransitive(x: int, y: int, z: int)
    requires Same(x, y) && Same(y, z)
    ensures Same(x, z)
  {
    var k :| x == y + k * M;
    var l :| y == z + l * M;
    assert x == z + (k + l) * M;
  }

  /** A wrapping accumulator holds the wrapped sum. */
  lemma Accumulate(acc: int, x: int, y: int)
    ensures WrappingAdd(Wrap(acc), WrappingMul(x, y)) == Wrap(acc + x * y)
  {
    SameWrapped(acc);
    SameWrapped(x * y);
    SameAdd(Wrap(acc), acc, WrappingMul(x, y), x * y);
    SameWrap(Wrap(acc) + WrappingMul(x, y), acc + x * y);
  }

  /** A dot product extended at the end. */
  lemma {:induction false} DotSnoc(u: seq<int>, v: seq<int>, x: int, y: int)
    requires |u| == |v|
    ensures Dot(u + [x], v + [y]) == Dot(u, v) + x * y
  {
    if u == [] {
      assert [x][1..] == [] && [y][1..] == [] && [] + [x] == [x] && [] + [y] == [y];
    } else {
      assert (u + [x])[1..] == u[1..] + [x] && (v + [y])[1..] == v[1..] + [y];
      DotSnoc(u[1..], v[1..], x, y);
    }
  }

  /** One more term of a dot product over prefixes. */
  lemma DotNext(u: seq<int>, v: seq<int>, k: nat)
    requires k < |u| == |v|
    ensures Dot(u[..k + 1], v[..k + 1]) == Dot(u[..k], v[..k]) + u[k] * v[k]
  {
    assert u[..k + 1] == u[..k] + [u[k]] && v[..k + 1] == v[..k] + [v[k]];
    DotSnoc(u[..k], v[..k], u[k], v[k]);
  }
}
