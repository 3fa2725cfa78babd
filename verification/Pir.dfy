/** The private-retrieval protocol on values: what the server publishes, what the client
    prepares, one query, its answer and its decoding, and every run of queries. */
module Pir {
  import opened LinearAlgebra
  import opened Matrices
  import opened Numerals
  import opened Rounding

  datatype Error = ErrorQueryParamsReused | ErrorOverflownAdd
  datatype Query = Query(b: seq<u32>, c: seq<u32>)
  datatype QueryResult = Created(q: Query) | Failed(e: Error)

  /** The client's unused rows. */
  datatype Client = Client(b: Grid, c: Grid)

  // ---------- one call ----------

  /** What one pair of rows yields for a wanted index. */
  function Outcome(bRow: seq<u32>, cRow: seq<u32>, delta: u32, index: nat): (r: QueryResult)
  {
    if index < |bRow| && (bRow[index] as int) + delta < M
    then Created(Query(bRow[index := (bRow[index] as int) + delta], cRow))
    else Failed(ErrorOverflownAdd)
  }

  /** A query is created exactly when the index exists and the sum does not overflow; it carries the row with the
      factor added at that index and nowhere else. */
  lemma OutcomeIs(bRow: seq<u32>, cRow: seq<u32>, delta: u32, index: nat, k: nat)
    ensures var r := Outcome(bRow, cRow, delta, index);
            && (r.Created? <==> index < |bRow| && (bRow[index] as int) + delta < M)
            && (r.Failed? ==> r.e == ErrorOverflownAdd)
            && (r.Created? ==> |r.q.b| == |bRow| && r.q.c == cRow)
            && (r.Created? && k < |bRow| ==> r.q.b[k] == (bRow[k] as int) + if k == index then delta as int else 0)
  {
  }

  /** One call: the reuse error when a side is empty, otherwise the last row of both sides is spent. */
  function Step(s: Client, delta: u32, index: nat): (r: (Client, QueryResult))
  {
    if s.b == [] || s.c == [] then (s, Failed(ErrorQueryParamsReused))
    else (Client(s.b[..|s.b| - 1], s.c[..|s.c| - 1]), Outcome(s.b[|s.b| - 1], s.c[|s.c| - 1], delta, index))
  }

  // ---------- runs ----------

  /** The state after a sequence of calls. */
  function After(s: Client, delta: u32, indices: seq<nat>): (r: Client)
    decreases |indices|
  {
    if indices == [] then s else After(Step(s, delta, indices[0]).0, delta, indices[1..])
  }

  /** What each call of the sequence returned. */
  function Results(s: Client, delta: u32, indices: seq<nat>): (r: seq<QueryResult>)
    ensures |r| == |indices|
    decreases |indices|
  {
    if indices == [] then []
    else [Step(s, delta, indices[0]).1] + Results(Step(s, delta, indices[0]).0, delta, indices[1..])
  }

  /** How many rows are left of `q` after `k` calls. */
  function Left(q: nat, k: nat): (n: nat)
  {
    if k < q then q - k else 0
  }

  /** Every run, from any number of rows: both sides stay at equal height and lose one row a call,
      whatever the call returns, until none is left. */
  lemma {:induction false} RunConsumes(s: Client, delta: u32, indices: seq<nat>)
    requires |s.b| == |s.c|
    ensures var n := Left(|s.b|, |indices|);
            After(s, delta, indices) == Client(s.b[..n], s.c[..n])
    decreases |indices|
  {
    if indices != [] {
      RunConsumes(Step(s, delta, indices[0]).0, delta, indices[1..]);
    }
  }

  /** Every run: call k answers from row q - 1 - k, which no other call uses, and from call q on
      there is only the reuse error. */
  lemma {:induction false} RunResults(s: Client, delta: u32, indices: seq<nat>, k: nat)
    requires |s.b| == |s.c| && k < |indices|
    ensures var q := |s.b|;
            Results(s, delta, indices)[k] ==
            if k < q then Outcome(s.b[q - 1 - k], s.c[q - 1 - k], delta, indices[k])
            else Failed(ErrorQueryParamsReused)
    decreases |indices|
  {
    if k > 0 {
      RunResults(Step(s, delta, indices[0]).0, delta, indices[1..], k - 1);
    }
  }

  // ---------- the algebra of one query ----------

  predicate Ternary(e: seq<u32>)
  {
    forall i | 0 <= i < |e| :: e[i] == 0 || e[i] == 1 || e[i] == M - 1
  }

  /** The integers a ternary row stands for: 2^32 - 1 is -1. */
  function Signed(e: seq<u32>): (r: seq<int>)
    ensures |r| == |e|
  {
    seq(|e|, i requires 0 <= i < |e| => if e[i] == M - 1 then -1 else e[i] as int)
  }

  /** Column `j` of what the error row adds to the answer. */
  function Noise(e: seq<u32>, db: Grid, w: nat, j: nat): (x: int)
    requires |e| == |db| && Rect(db, w) && j < w
  {
    Dot(Signed(e), Column(db, j))
  }

  /** The noise of an error row is inside the window in every column. */
  predicate NoiseInWindow(bits: nat, e: seq<u32>, db: Grid, w: nat)
    requires bits <= 31 && |e| == |db| && Rect(db, w)
  {
    forall j | 0 <= j < w :: InWindow(bits, Noise(e, db, w, j))
  }

  /** The client's row for a secret row and an error row. */
  ghost predicate IsBRow(b: seq<u32>, s: seq<u32>, e: seq<u32>, a: Grid, m: nat)
    requires |s| == |a| && Rect(a, m) && |e| == m
  {
    |b| == m && forall k | 0 <= k < m :: b[k] == WrappingAdd(Wrap(Dot(s, Column(a, k))), e[k])
  }

  /** The client's row against the published hint. */
  ghost predicate IsCRow(c: seq<u32>, s: seq<u32>, h: Grid, w: nat)
    requires |s| == |h| && Rect(h, w)
  {
    |c| == w && forall j | 0 <= j < w :: c[j] == Wrap(Dot(s, Column(h, j)))
  }

  /** Multiplying by the hint is multiplying by the matrix and then by the database. */
  lemma HintConsistent(s: seq<u32>, a: Grid, db: Grid, w: nat, j: nat)
    requires |s| == |a| && Rect(a, |db|) && Rect(db, w) && j < w
    ensures Same(Dot(s, Column(Product(a, db, w), j)), Dot(VecMat(s, a, |db|), Column(db, j)))
  {
    var d := Column(db, j);
    var exact := MatVec(a, d);
    var hint := Column(Product(a, db, w), j);
    forall i | 0 <= i < |a|
      ensures Same(hint[i], exact[i])
    {
      SameWrapped(Dot(a[i], d));
    }
    DotSame(hint, exact, s);
    DotCommutes(hint, s);
    DotCommutes(exact, s);
    Associative(s, a, d);
  }

  lemma TernarySame(e: seq<u32>, k: nat)
    requires k < |e|
    ensures Same(e[k], Signed(e)[k])
  {
    assert e[k] == Signed(e)[k] + (if e[k] == M - 1 then 1 else 0) * M;
  }

  /** Entry k of a client row, as an integer up to wrap-around. */
  lemma BEntry(b: seq<u32>, s: seq<u32>, e: seq<u32>, a: Grid, m: nat, k: nat)
    requires |s| == |a| && Rect(a, m) && |e| == m && IsBRow(b, s, e, a, m) && k < m
    ensures Same(b[k], VecMat(s, a, m)[k] + Signed(e)[k])
  {
    var x, t: int := VecMat(s, a, m)[k], Signed(e)[k];
    assert b[k] == Wrap(Wrap(x) as int + e[k]) by { VecMatAt(s, a, m, k); }
    TernarySame(e, k);
    WrappedSum(x, e[k], t);
  }

  lemma WrappedSum(x: int, y: int, t: int)
    requires Same(y, t)
    ensures Same(Wrap(Wrap(x) as int + y), x + t)
  {
    SameWrapped(x);
    SameAdd(Wrap(x), x, y, t);
    SameWrapped(Wrap(x) as int + y);
    SameTransitive(Wrap(Wrap(x) as int + y), Wrap(x) as int + y, x + t);
  }

  /** The answer to a query less the client's own row is the noise plus the wanted entry, scaled. */
  lemma AnswerIsScaledEntry(s: seq<u32>, e: seq<u32>, a: Grid, db: Grid, w: nat, b: seq<u32>, c: seq<u32>,
                            delta: u32, index: nat, j: nat)
    requires |s| == |a| && Rect(a, |db|) && Rect(db, w) && j < w && |e| == |db| && index < |db|
    requires IsBRow(b, s, e, a, |db|) && IsCRow(c, s, Product(a, db, w), w)
    requires (b[index] as int) + delta < M
    ensures var sent := b[index := (b[index] as int) + delta];
            Same(Dot(Column(db, j), sent) - c[j], Noise(e, db, w, j) + (delta as int) * db[index][j])
  {
    var m, d := |db|, Column(db, j);
    var sent: seq<int> := b[index := (b[index] as int) + delta];
    var sa := VecMat(s, a, m);
    var exact := Add(Add(sa, Signed(e)), Unit(m, index, delta));
    forall k | 0 <= k < m
      ensures Same(sent[k], exact[k])
    {
      BEntry(b, s, e, a, m, k);
      var u := Unit(m, index, delta)[k];
      assert Same(u, u) by { assert u == u + 0 * M; }
      SameAdd(b[k], sa[k] + Signed(e)[k], u, u);
    }
    DotSame(sent, exact, d);
    DotCommutes(sent, d);
    DotAdd(Add(sa, Signed(e)), Unit(m, index, delta), d);
    DotAdd(sa, Signed(e), d);
    DotUnit(m, index, delta, d);
    HintConsistent(s, a, db, w, j);
    var hint := Dot(s, Column(Product(a, db, w), j));
    SameWrapped(hint);
    SameTransitive(c[j], hint, Dot(sa, d));
    SameAdd(Dot(d, sent), Dot(exact, d), c[j], Dot(sa, d));
  }

  // ---------- decoding ----------

  /** The server's answer: the transposed database against the query. */
  function Respond(transDb: Grid, q: Query): (r: seq<u32>)
    requires Rect(transDb, |q.b|)
    ensures |r| == |transDb|
  {
    Apply(transDb, q.b)
  }

  function ParseResponse(bits: nat, dbW: nat, q: Query, response: seq<u32>): (r: seq<nat>)
    requires 1 <= bits <= 31 && dbW <= |response| && dbW <= |q.c|
    ensures |r| == dbW
  {
    seq(dbW, i requires 0 <= i < dbW => Decode(bits, WrappingSub(response[i], q.c[i])))
  }

  /** The window does not see multiples of 2^32. */
  lemma WindowSame(bits: nat, x: int, y: int)
    requires bits <= 31 && Same(x, y)
    ensures InWindow(bits, x) == InWindow(bits, y)
  {
    SameWrap(x, y);
  }

  /** A query built from a secret row and an error row decodes to the wanted row of the database
      exactly when every column's noise is inside the window. */
  lemma QueryDecodes(bits: nat, s: seq<u32>, e: seq<u32>, a: Grid, db: Grid, w: nat, b: seq<u32>, c: seq<u32>,
                     index: nat)
    requires 1 <= bits <= 31
    requires |s| == |a| && Rect(a, |db|) && Rect(db, w) && |e| == |db|
    requires IsBRow(b, s, e, a, |db|) && IsCRow(c, s, Product(a, db, w), w)
    requires forall k, j | 0 <= k < |db| && 0 <= j < w :: db[k][j] < PlaintextSize(bits)
    requires Outcome(b, c, RoundingFactor(bits), index).Created?
    ensures var q := Outcome(b, c, RoundingFactor(bits), index).q;
            ParseResponse(bits, w, q, Respond(Transposed(db, w), q)) == db[index] <==>
            NoiseInWindow(bits, e, db, w)
  {
    var q := Outcome(b, c, RoundingFactor(bits), index).q;
    var parsed := ParseResponse(bits, w, q, Respond(Transposed(db, w), q));
    forall j | 0 <= j < w
      ensures parsed[j] == db[index][j] <==> InWindow(bits, Noise(e, db, w, j))
    {
      EntryDecodes(bits, s, e, a, db, w, b, c, index, j);
    }
  }

  lemma EntryDecodes(bits: nat, s: seq<u32>, e: seq<u32>, a: Grid, db: Grid, w: nat, b: seq<u32>, c: seq<u32>,
                     index: nat, j: nat)
    requires 1 <= bits <= 31 && j < w
    requires |s| == |a| && Rect(a, |db|) && Rect(db, w) && |e| == |db|
    requires IsBRow(b, s, e, a, |db|) && IsCRow(c, s, Product(a, db, w), w)
    requires Outcome(b, c, RoundingFactor(bits), index).Created?
    requires db[index][j] < PlaintextSize(bits)
    ensures var q := Outcome(b, c, RoundingFactor(bits), index).q;
            Decode(bits, WrappingSub(Respond(Transposed(db, w), q)[j], q.c[j])) == db[index][j] <==>
            InWindow(bits, Noise(e, db, w, j))
  {
    var delta := RoundingFactor(bits);
    var q := Outcome(b, c, delta, index).q;
    var exact := Dot(Column(db, j), q.b);
    AnswerIsScaledEntry(s, e, a, db, w, b, c, delta, index, j);
    assert Respond(Transposed(db, w), q)[j] == Wrap(exact);
    DecodeDifference(bits, exact, c[j], Noise(e, db, w, j), db[index][j]);
  }

  lemma DecodeDifference(bits: nat, exact: int, c: int, noise: int, x: nat)
    requires 1 <= bits <= 31 && x < PlaintextSize(bits)
    requires Same(exact - c, noise + (RoundingFactor(bits) as int) * x)
    ensures Decode(bits, WrappingSub(Wrap(exact), c)) == x <==> InWindow(bits, noise)
  {
    var u, shift := WrappingSub(Wrap(exact), c), (RoundingFactor(bits) as int) * x;
    Unscale(exact, c, noise, shift);
    WindowSame(bits, u - shift, noise);
    DecodeExact(bits, u, x);
  }

  /** Wrap-around along the way does not matter to the difference. */
  lemma Unscale(exact: int, c: int, noise: int, shift: int)
    requires Same(exact - c, noise + shift)
    ensures Same(WrappingSub(Wrap(exact), c) - shift, noise)
  {
    SameWrapped(exact);
    assert Same(c, c) by { assert c == c + 0 * M; }
    SameAdd(Wrap(exact), exact, c, c);
    var d: int := Wrap(exact) as int - c;
    SameWrapped(d);
    SameTransitive(Wrap(d), d, exact - c);
    SameTransitive(Wrap(d), exact - c, noise + shift);
    assert Same(shift, shift) by { assert shift == shift + 0 * M; }
    SameAdd(Wrap(d), noise + shift, shift, shift);
  }

  // ---------- when decoding cannot fail ----------

  /** Every entry of `d` is a plaintext. */
  predicate Plaintexts(bits: nat, d: seq<int>)
    requires bits <= 31
  {
    forall i | 0 <= i < |d| :: 0 <= d[i] < PlaintextSize(bits)
  }

  lemma TernaryProduct(t: int, d: int, top: int)
    requires -1 <= t <= 1 && 0 <= d <= top
    ensures -top <= t * d <= top
  {
    assert t == -1 || t == 0 || t == 1;
  }

  lemma {:induction false} NoiseBound(e: seq<u32>, d: seq<int>, top: int)
    requires |e| == |d| && Ternary(e) && top >= 0 && forall i | 0 <= i < |d| :: 0 <= d[i] <= top
    ensures -(|e| * top) <= Dot(Signed(e), d) <= |e| * top
  {
    if e != [] {
      assert Signed(e)[1..] == Signed(e[1..]);
      NoiseBound(e[1..], d[1..], top);
      TernaryProduct(Signed(e)[0], d[0], top);
      OneMore(top, |e|);
    }
  }

  lemma SmallInWindow(bits: nat, x: int)
    requires 1 <= bits <= 31 && -(RoundingFloor(bits) as int) < x <= RoundingFloor(bits)
    ensures InWindow(bits, x)
  {
    FactorTiles(bits);
    Pow2Monotonic(31 - bits, 30);
    Pow2Of32();
    assert 2 * Pow2(30) == Pow2(31);
    if x < 0 {
      QuotientUnique(x, M, -1, x + M);
    } else {
      QuotientUnique(x, M, 0, x);
    }
  }

  /** Column noise of `m` ternary errors is inside the window whatever the errors and the plaintexts. */
  ghost predicate NoiseNeverEscapes(bits: nat, m: nat)
    requires bits <= 31
  {
    forall e: seq<u32>, d: seq<int> | |e| == |d| == m && Ternary(e) && Plaintexts(bits, d) ::
      InWindow(bits, Dot(Signed(e), d))
  }

  lemma BoundSuffices(bits: nat, m: nat)
    requires 1 <= bits <= 31 && m * (PlaintextSize(bits) - 1) < RoundingFloor(bits)
    ensures NoiseNeverEscapes(bits, m)
  {
    forall e: seq<u32>, d: seq<int> | |e| == |d| == m && Ternary(e) && Plaintexts(bits, d)
      ensures InWindow(bits, Dot(Signed(e), d))
    {
      NoiseBound(e, d, PlaintextSize(bits) - 1);
      SmallInWindow(bits, Dot(Signed(e), d));
    }
  }

  /** The first `t` of `m` errors are -1, the rest 0. */
  function Negatives(t: nat, m: nat): (e: seq<u32>)
    requires t <= m
    ensures |e| == m && Ternary(e)
  {
    seq(m, i requires 0 <= i < m => if i < t then (M - 1) as u32 else 0)
  }

  lemma {:induction false} NegativesDot(t: nat, m: nat, top: int)
    requires t <= m
    ensures Dot(Signed(Negatives(t, m)), seq(m, _ => top)) == -(t * top)
  {
    var e, d := Negatives(t, m), seq(m, _ => top);
    if m > 0 {
      var t' := if t > 0 then t - 1 else 0;
      assert Signed(e)[1..] == Signed(Negatives(t', m - 1));
      assert d[1..] == seq(m - 1, _ => top);
      NegativesDot(t', m - 1, top);
      if t > 0 {
        assert t * top == (t - 1) * top + top;
      }
    }
  }

  /** When the bound fails, some errors on the largest plaintext escape the window: the first `t` are -1. */
  lemma EscapingErrors(bits: nat, m: nat) returns (t: nat)
    requires 1 <= bits <= 31 && m * (PlaintextSize(bits) - 1) >= RoundingFloor(bits)
    ensures t <= m && !InWindow(bits, Dot(Signed(Negatives(t, m)), seq(m, _ => PlaintextSize(bits) - 1)))
  {
    var top: int, half: int := PlaintextSize(bits) - 1, RoundingFloor(bits);
    assert top >= 1 && half >= 1 && half * top + half == M / 2 by {
      FactorTiles(bits);
      HalfModulus(top + 1, half);
    }
    t := FirstReaching(top, half, m);
    NegativesDot(t, m, top);
    Escapes(t * top, top, half);
  }

  /** When the bound fails, some errors on some plaintexts escape the window. */
  lemma BoundNecessary(bits: nat, m: nat)
    requires 1 <= bits <= 31 && m * (PlaintextSize(bits) - 1) >= RoundingFloor(bits)
    ensures !NoiseNeverEscapes(bits, m)
  {
    var t := EscapingErrors(bits, m);
    var d := seq(m, _ => PlaintextSize(bits) - 1);
    assert Plaintexts(bits, d);
    EscapeRefutes(bits, Negatives(t, m), d);
  }

  lemma HalfModulus(p: int, half: int)
    requires p * (2 * half) == M
    ensures half * (p - 1) + half == M / 2
  {
    assert p * (2 * half) == 2 * (half * p);
    assert half * (p - 1) + half == half * p;
  }

  lemma EscapeRefutes(bits: nat, e: seq<u32>, d: seq<int>)
    requires bits <= 31 && |e| == |d| && Ternary(e) && Plaintexts(bits, d) && !InWindow(bits, Dot(Signed(e), d))
    ensures !NoiseNeverEscapes(bits, |e|)
  {
  }

  /** The least number of steps of `top` that reaches `half`. */
  lemma FirstReaching(top: int, half: int, m: nat) returns (t: nat)
    requires top >= 1 && half >= 1 && m * top >= half
    ensures t <= m && half <= t * top < half + top
  {
    t := 0;
    while t * top < half
      invariant t * top < half + top && t <= m
      decreases m - t
    {
      if t == m {
        assert false;
      }
      assert (t + 1) * top == t * top + top;
      t := t + 1;
    }
  }

  lemma Escapes(y: int, top: int, half: int)
    requires half >= 1 && top >= 1 && half * top + half == M / 2 && half <= y < half + top
    ensures Centred(-y) <= -half
  {
    MulLe(1, half, top);
    QuotientUnique(-y, M, -1, M - y);
  }

  /** The exact condition under which no choice of errors and plaintexts escapes the window. */
  lemma NoiseBoundExact(bits: nat, m: nat)
    requires 1 <= bits <= 31
    ensures NoiseNeverEscapes(bits, m) <==> m * (PlaintextSize(bits) - 1) < RoundingFloor(bits)
  {
    if m * (PlaintextSize(bits) - 1) < RoundingFloor(bits) {
      BoundSuffices(bits, m);
    } else {
      BoundNecessary(bits, m);
    }
  }

  // ---------- whole runs ----------

  /** Row by row, the client state was prepared from these secrets and errors. */
  ghost predicate Prepared(s: Client, secrets: Grid, errors: Grid, a: Grid, db: Grid, w: nat)
    requires Rect(a, |db|) && Rect(db, w)
  {
    && |s.b| == |s.c| == |secrets| == |errors|
    && Rect(secrets, |a|) && Rect(errors, |db|)
    && forall k | 0 <= k < |secrets| ::
         IsBRow(s.b[k], secrets[k], errors[k], a, |db|) && IsCRow(s.c[k], secrets[k], Product(a, db, w), w)
  }

  /** Along every run of calls with any indices, each call that yields a query decodes to the wanted
      row exactly when the noise of that call's own error row is inside the window. */
  lemma RunDecodes(bits: nat, s: Client, secrets: Grid, errors: Grid, a: Grid, db: Grid, w: nat,
                   indices: seq<nat>, k: nat)
    requires 1 <= bits <= 31 && Rect(a, |db|) && Rect(db, w) && Prepared(s, secrets, errors, a, db, w)
    requires forall i, j | 0 <= i < |db| && 0 <= j < w :: db[i][j] < PlaintextSize(bits)
    requires k < |indices| && Results(s, RoundingFactor(bits), indices)[k].Created?
    ensures k < |errors| && indices[k] < |db|
    ensures var q := Results(s, RoundingFactor(bits), indices)[k].q;
            |q.b| == |db| && |q.c| == w &&
            (ParseResponse(bits, w, q, Respond(Transposed(db, w), q)) == db[indices[k]] <==>
             NoiseInWindow(bits, errors[|errors| - 1 - k], db, w))
  {
    RunResults(s, RoundingFactor(bits), indices, k);
    var i := |errors| - 1 - k;
    assert IsBRow(s.b[i], secrets[i], errors[i], a, |db|) && IsCRow(s.c[i], secrets[i], Product(a, db, w), w);
    QueryDecodes(bits, secrets[i], errors[i], a, db, w, s.b[i], s.c[i], indices[k]);
  }

  /** With few enough records for the plaintext size, every query any run yields decodes correctly,
      whatever the ternary errors. */
  lemma RunAlwaysDecodes(bits: nat, s: Client, secrets: Grid, errors: Grid, a: Grid, db: Grid, w: nat,
                         indices: seq<nat>, k: nat)
    requires 1 <= bits <= 31 && Rect(a, |db|) && Rect(db, w) && Prepared(s, secrets, errors, a, db, w)
    requires forall i, j | 0 <= i < |db| && 0 <= j < w :: db[i][j] < PlaintextSize(bits)
    requires forall i | 0 <= i < |errors| :: Ternary(errors[i])
    requires |db| * (PlaintextSize(bits) - 1) < RoundingFloor(bits)
    requires k < |indices| && Results(s, RoundingFactor(bits), indices)[k].Created?
    ensures indices[k] < |db|
    ensures var q := Results(s, RoundingFactor(bits), indices)[k].q;
            |q.b| == |db| && |q.c| == w && ParseResponse(bits, w, q, Respond(Transposed(db, w), q)) == db[indices[k]]
  {
    RunDecodes(bits, s, secrets, errors, a, db, w, indices, k);
    BoundSuffices(bits, |db|);
    var e := errors[|errors| - 1 - k];
    forall j | 0 <= j < w
      ensures InWindow(bits, Noise(e, db, w, j))
    {
      assert Plaintexts(bits, Column(db, j));
    }
  }

  // ---------- the exact bound of the protocol ----------

  /** A client with ternary secrets and errors, against a database of plaintexts. */
  ghost predicate TernaryClient(bits: nat, s: Client, secrets: Grid, errors: Grid, a: Grid, db: Grid, w: nat)
    requires bits <= 31
  {
    && Rect(a, |db|) && Rect(db, w) && Prepared(s, secrets, errors, a, db, w)
    && (forall i | 0 <= i < |secrets| :: Ternary(secrets[i]))
    && (forall i | 0 <= i < |errors| :: Ternary(errors[i]))
    && (forall i, j | 0 <= i < |db| && 0 <= j < w :: db[i][j] < PlaintextSize(bits))
  }

  /** The k-th call of a run decodes to the wanted row, if it yields a query. */
  ghost predicate CallDecodes(bits: nat, s: Client, db: Grid, w: nat, indices: seq<nat>, k: nat)
    requires 1 <= bits <= 31 && Rect(db, w) && k < |indices|
  {
    var r := Results(s, RoundingFactor(bits), indices)[k];
    r.Created? ==> |r.q.b| == |db| && |r.q.c| == w && indices[k] < |db| &&
                   ParseResponse(bits, w, r.q, Respond(Transposed(db, w), r.q)) == db[indices[k]]
  }

  /** Every call of every run decodes, for every database of `m` records and every ternary client. */
  ghost predicate ProtocolDecodes(bits: nat, m: nat)
    requires 1 <= bits <= 31
  {
    forall s, secrets, errors, a, db, w, indices, k {:trigger TernaryClient(bits, s, secrets, errors, a, db, w),
                                                              CallDecodes(bits, s, db, w, indices, k)}
      | |db| == m && TernaryClient(bits, s, secrets, errors, a, db, w) && 0 <= k < |indices| ::
      CallDecodes(bits, s, db, w, indices, k)
  }

  /** A row of the public matrix that cancels an error row of zeros and minus ones. */
  function Cancelling(e: seq<u32>): (r: seq<u32>)
    ensures |r| == |e|
  {
    seq(|e|, i requires 0 <= i < |e| => if e[i] == M - 1 then 1 else 0)
  }

  /** The client with the secret 1, the errors `Negatives(t, m)` and a matrix row that cancels them. */
  lemma CancellingClient(bits: nat, m: nat, t: nat, e: seq<u32>, a: Grid, db: Grid, c: seq<u32>, s: Client)
    requires 1 <= bits <= 31 && t <= m && e == Negatives(t, m) && a == [Cancelling(e)]
    requires db == seq(m, _ => [PlaintextSize(bits) - 1])
    requires c == [Wrap(Dot([1], Column(Product(a, db, 1), 0)))]
    requires s == Client([seq(m, _ => 0)], [c])
    ensures TernaryClient(bits, s, [[1]], [e], a, db, 1)
  {
    var one: seq<u32> := [1];
    forall k | 0 <= k < m
      ensures s.b[0][k] == WrappingAdd(Wrap(Dot(one, Column(a, k))), e[k])
    {
      assert Column(a, k) == [a[0][k]];
      DotOne(a[0][k]);
    }
    assert IsBRow(s.b[0], one, e, a, m);
    assert IsCRow(c, one, Product(a, db, 1), 1);
    assert Prepared(s, [one], [e], a, db, 1);
    assert Ternary(one);
  }

  lemma DotOne(x: int)
    ensures Dot([1], [x]) == x
  {
    assert [1][1..] == [] && [x][1..] == [];
  }

  /** When the bound fails, a database, a matrix, a ternary secret and a ternary error row whose query is
      created and decodes to the wrong row. */
  lemma DecodesWrongly(bits: nat, m: nat) returns (s: Client, secrets: Grid, errors: Grid, a: Grid, db: Grid)
    requires 1 <= bits <= 31 && m * (PlaintextSize(bits) - 1) >= RoundingFloor(bits)
    ensures |db| == m && TernaryClient(bits, s, secrets, errors, a, db, 1)
    ensures Results(s, RoundingFactor(bits), [0])[0].Created? && !CallDecodes(bits, s, db, 1, [0], 0)
  {
    var t := EscapingErrors(bits, m);
    var e := Negatives(t, m);
    a, db := [Cancelling(e)], seq(m, _ => [PlaintextSize(bits) - 1]);
    var c := [Wrap(Dot([1], Column(Product(a, db, 1), 0)))];
    s, secrets, errors := Client([seq(m, _ => 0)], [c]), [[1]], [e];
    CancellingClient(bits, m, t, e, a, db, c, s);
    assert m > 0 by { FactorTiles(bits); }
    RunResults(s, RoundingFactor(bits), [0], 0);
    RunDecodes(bits, s, secrets, errors, a, db, 1, [0], 0);
    assert Column(db, 0) == seq(m, _ => PlaintextSize(bits) - 1);
    assert !InWindow(bits, Noise(e, db, 1, 0));
  }

  /** The protocol decodes every call of every run, for all databases of `m` records, exactly when
      m * (2^bits - 1) is below half a factor. */
  lemma ProtocolDecodesExactly(bits: nat, m: nat)
    requires 1 <= bits <= 31
    ensures ProtocolDecodes(bits, m) <==> m * (PlaintextSize(bits) - 1) < RoundingFloor(bits)
  {
    if m * (PlaintextSize(bits) - 1) < RoundingFloor(bits) {
      forall s, secrets, errors, a, db, w, indices, k
        | |db| == m && TernaryClient(bits, s, secrets, errors, a, db, w) && 0 <= k < |indices|
        ensures CallDecodes(bits, s, db, w, indices, k)
      {
        if Results(s, RoundingFactor(bits), indices)[k].Created? {
          RunAlwaysDecodes(bits, s, secrets, errors, a, db, w, indices, k);
        }
      }
    } else {
      var s, secrets, errors, a, db := DecodesWrongly(bits, m);
    }
  }

  /** 4096 records with plaintexts of 12 bits are past the bound. */
  lemma TwelveBitsPastTheBound()
    ensures !ProtocolDecodes(12, 4096)
  {
    FactorTiles(12);
    assert Pow2(12) == 4096 && Pow2(19) == 524288;
    ProtocolDecodesExactly(12, 4096);
  }
}
