/** The protocol's objects: the server's parameters, the client's parameters, and queries. */
module PirProtocol {
  import opened LinearAlgebra
  import opened Matrices
  import opened Rounding
  import opened Pir

  class BaseParams {
    const A: Matrix
    const H: Matrix
    const db: Matrix
    const transDb: Matrix

    /** Publishes the hint A * DB and keeps the transposed database. */
    constructor (db: Matrix, A: Matrix)
      requires db.Valid() && A.Valid() && A.cols == db.rows && A.rows > 0 && db.rows > 0 && db.cols > 0
      ensures this.db == db && this.A == A && fresh(H) && fresh(transDb)
      ensures H.Exact() && H.rows == A.rows && H.cols == db.cols
      ensures H.Contents() == Product(A.Contents(), db.Contents(), db.cols)
      ensures transDb.Exact() && transDb.rows == db.cols && transDb.cols == db.rows
      ensures transDb.Contents() == Transposed(db.Contents(), db.cols)
    {
      var h := Matrix.MultTranspose(A, db);
      var t := db.Transpose();
      this.db, this.A, this.H, this.transDb := db, A, h, t;
    }

    method CreateResponse(q: Query) returns (c: seq<u32>)
      requires transDb.Valid() && |q.b| == transDb.cols
      ensures c == Respond(transDb.Contents(), q)
    {
      var r := transDb.MultByVector(q.b);
      c := r.value;
    }
  }

  /** A vector of zeros followed by every sampled row. */
  function Extended(zeros: nat, samples: Grid): (v: seq<u32>)
  {
    seq(zeros, _ => 0) + Flatten(samples)
  }

  class ClientParams {
    const m: nat
    const dim: nat
    const plaintextBits: nat
    const dbW: nat
    const B: Matrix
    const C: Matrix

    ghost predicate Valid()
      reads B, C
    {
      && B != C && B.Exact() && C.Exact() && B.rows == C.rows
      && B.cols == m && C.cols == dbW && m > 0 && dbW > 0
    }

    ghost function State(): (s: Client)
      requires Valid()
      reads B, C
      ensures |s.b| == |s.c| && Rect(s.b, m) && Rect(s.c, dbW)
    {
      Client(B.Contents(), C.Contents())
    }

    constructor (m: nat, dim: nat, plaintextBits: nat, dbW: nat, B: Matrix, C: Matrix)
      ensures this.m == m && this.dim == dim && this.plaintextBits == plaintextBits && this.dbW == dbW
      ensures this.B == B && this.C == C
    {
      this.m, this.dim, this.plaintextBits, this.dbW, this.B, this.C := m, dim, plaintextBits, dbW, B, C;
    }

    /** Extends a zero vector by every sampled row, one row at a time. */
    static method ExtendBySamples(zeros: nat, samples: Grid) returns (v: seq<u32>)
      ensures v == Extended(zeros, samples)
    {
      v := seq(zeros, _ => 0);
      for q := 0 to |samples|
        invariant v == seq(zeros, _ => 0) + Flatten(samples[..q])
      {
        FlattenNext(samples, q);
        v := v + samples[q];
      }
      assert samples[..|samples|] == samples;
    }

    /** Prepares `queries` rows. The sampled rows come after the zeros the vectors start with, so the
        secrets and errors the matrices see are the zero rows in front. */
    static method New(m: nat, dim: nat, plaintextBits: nat, dbW: nat, A: Matrix, H: Matrix, queries: nat,
                      sampledS: Grid, sampledE: Grid)
      returns (r: Result<ClientParams>, ghost secrets: Grid, ghost errors: Grid)
      requires m > 0 && dim > 0 && dbW > 0 && queries > 0
      requires A.Valid() && A.rows == dim && A.cols == m && H.Valid() && H.rows == dim && H.cols == dbW
      requires |sampledS| == queries && Rect(sampledS, dim) && |sampledE| == queries && Rect(sampledE, m)
      ensures r.Ok? <==> queries < 0x10_0000_0000_0000
      ensures |secrets| == |errors| == queries && Rect(secrets, dim) && Rect(errors, m)
      ensures forall k | 0 <= k < queries :: Ternary(errors[k]) && Ternary(secrets[k])
      ensures secrets == ZeroRows(queries, dim) && errors == ZeroRows(queries, m)
      ensures r.Ok? ==> var cp := r.value;
                fresh(cp) && fresh(cp.B) && fresh(cp.C) && cp.Valid() && cp.m == m && cp.dbW == dbW &&
                cp.plaintextBits == plaintextBits &&
                cp.State() == Client(Sum(Product(secrets, A.Contents(), m), errors, m),
                                     Product(secrets, H.Contents(), dbW))
    {
      secrets, errors := ZeroRows(queries, dim), ZeroRows(queries, m);
      if queries >= 0x10_0000_0000_0000 {
        return Err, secrets, errors;
      }
      var sVec := ExtendBySamples(queries * dim, sampledS);
      var eVec := ExtendBySamples(queries * m, sampledE);
      var S := new Matrix.WithVector(sVec, queries, dim);
      var E := new Matrix.WithVector(eVec, queries, m);
      ZeroPrefix(sVec, queries, dim, Flatten(sampledS));
      ZeroPrefix(eVec, queries, m, Flatten(sampledE));
      var B := Matrix.MultTranspose(S, A);
      B.Add(E);
      var C := Matrix.MultTranspose(S, H);
      var cp := new ClientParams(m, dim, plaintextBits, dbW, B, C);
      r := Ok(cp);
    }
  }

  function ZeroRows(h: nat, w: nat): (g: Grid)
    ensures |g| == h && Rect(g, w)
    ensures forall k | 0 <= k < h :: Ternary(g[k])
  {
    seq(h, _ => seq(w, _ => 0))
  }

  lemma ZeroPrefix(v: seq<u32>, rows: nat, cols: nat, tail: seq<u32>)
    requires v == seq(rows * cols, _ => 0) + tail
    ensures rows * cols <= |v| && RowsOf(v, rows, cols) == ZeroRows(rows, cols)
  {
    forall i | 0 <= i < rows
      ensures RowAt(v, rows, cols, i) == ZeroRows(rows, cols)[i]
    {
      RowBound(i, rows, cols);
    }
  }

  /** Takes the next unused row of both sides and marks the wanted index. Both rows are gone
      whatever the outcome. */
  method CreateQuery(cp: ClientParams, index: nat) returns (r: QueryResult)
    requires cp.Valid() && cp.plaintextBits <= 31
    modifies cp.B, cp.C
    ensures cp.Valid()
    ensures (cp.State(), r) == Step(old(cp.State()), RoundingFactor(cp.plaintextBits), index)
  {
    if cp.B.IsEmpty() || cp.C.IsEmpty() {
      return Failed(ErrorQueryParamsReused);
    }
    var b := cp.B.PopRow();
    var c := cp.C.PopRow();
    var indicator := RoundingFactor(cp.plaintextBits);
    if b.Some? {
      var bRow := b.value;
      if index < |bRow| {
        var result, overflowed := OverflowingAdd(bRow[index], indicator);
        if !overflowed {
          b := Some(bRow[index := result]);
        } else {
          return Failed(ErrorOverflownAdd);
        }
      } else {
        return Failed(ErrorOverflownAdd);
      }
    } else {
      return Failed(ErrorOverflownAdd);
    }
    if c.None? {
      return Failed(ErrorOverflownAdd);
    }
    return Created(Query(b.value, c.value));
  }

  /** The wrapped sum, and whether it wrapped. */
  method OverflowingAdd(x: u32, y: u32) returns (sum: u32, overflowed: bool)
    ensures sum == WrappingAdd(x, y)
    ensures overflowed <==> (x as int) + y >= M
  {
    var exact: int := (x as int) + y;
    sum, overflowed := Wrap(exact), exact >= M;
  }

  /** A freshly prepared client against a published hint meets the precondition of every run theorem. */
  lemma NewIsPrepared(secrets: Grid, errors: Grid, a: Grid, db: Grid, w: nat)
    requires Rect(a, |db|) && Rect(db, w) && |secrets| == |errors| && Rect(secrets, |a|) && Rect(errors, |db|)
    ensures Prepared(Client(Sum(Product(secrets, a, |db|), errors, |db|), Product(secrets, Product(a, db, w), w)),
                     secrets, errors, a, db, w)
  {
    var s := Client(Sum(Product(secrets, a, |db|), errors, |db|), Product(secrets, Product(a, db, w), w));
    forall k | 0 <= k < |secrets|
      ensures IsBRow(s.b[k], secrets[k], errors[k], a, |db|) && IsCRow(s.c[k], secrets[k], Product(a, db, w), w)
    {
    }
  }

  /** The client that `ClientParams.New` prepares against a published hint. */
  function FreshClient(queries: nat, a: Grid, db: Grid, w: nat): (s: Client)
    requires Rect(a, |db|) && Rect(db, w)
  {
    var secrets, errors := ZeroRows(queries, |a|), ZeroRows(queries, |db|);
    Client(Sum(Product(secrets, a, |db|), errors, |db|), Product(secrets, Product(a, db, w), w))
  }

  lemma FreshEntry(queries: nat, a: Grid, db: Grid, w: nat, i: nat, index: nat)
    requires Rect(a, |db|) && Rect(db, w) && i < queries && index < |db|
    ensures FreshClient(queries, a, db, w).b[i][index] == 0
  {
    DotZero(|a|, Column(a, index));
    assert ZeroRows(queries, |a|)[i] == seq(|a|, _ => 0);
  }

  lemma ZeroNoise(bits: nat, db: Grid, w: nat, e: seq<u32>)
    requires 1 <= bits <= 31 && Rect(db, w) && e == seq(|db|, _ => 0)
    ensures NoiseInWindow(bits, e, db, w)
  {
    forall j | 0 <= j < w
      ensures InWindow(bits, Noise(e, db, w, j))
    {
      assert Signed(e) == seq(|db|, _ => 0);
      DotZero(|db|, Column(db, j));
      FactorTiles(bits);
      SmallInWindow(bits, 0);
    }
  }

  /** Every run of a freshly prepared client, over a database of any size: call k yields a query exactly
      when a row is left for it and the index exists, and that query decodes to the wanted row. */
  lemma FreshRunDecodes(bits: nat, queries: nat, a: Grid, db: Grid, w: nat, indices: seq<nat>, k: nat)
    requires 1 <= bits <= 31 && Rect(a, |db|) && Rect(db, w) && k < |indices|
    requires forall i, j | 0 <= i < |db| && 0 <= j < w :: db[i][j] < PlaintextSize(bits)
    ensures var r := Results(FreshClient(queries, a, db, w), RoundingFactor(bits), indices)[k];
            && (r.Created? <==> k < queries && indices[k] < |db|)
            && (r.Created? ==> |r.q.b| == |db| && |r.q.c| == w &&
                               ParseResponse(bits, w, r.q, Respond(Transposed(db, w), r.q)) == db[indices[k]])
  {
    var s := FreshClient(queries, a, db, w);
    var secrets, errors := ZeroRows(queries, |a|), ZeroRows(queries, |db|);
    NewIsPrepared(secrets, errors, a, db, w);
    RunResults(s, RoundingFactor(bits), indices, k);
    if k < queries && indices[k] < |db| {
      FreshEntry(queries, a, db, w, queries - 1 - k, indices[k]);
      RunDecodes(bits, s, secrets, errors, a, db, w, indices, k);
      ZeroNoise(bits, db, w, errors[queries - 1 - k]);
    }
  }
}
