/** From records in to records out. */
module Retrieval {
  import opened Bits
  import opened Numerals
  import opened LinearAlgebra
  import opened Matrices
  import opened Rounding
  import opened Packing
  import opened Pir
  import opened PirProtocol
  import opened Records

  /** Row i of the database is record i, cut into plaintexts of `b` bits. */
  ghost predicate HoldsRecords(db: Grid, records: seq<seq<byte>>, elemSize: nat, b: nat)
    requires b > 0
  {
    && |db| == |records|
    && forall i | 0 <= i < |records| ::
         Cuttable(Octets(records[i]), b, RowWidth(elemSize, b)) && db[i] == RecordRow(records[i], elemSize, b)
  }

  lemma EntriesArePlaintexts(db: Grid, w: nat, records: seq<seq<byte>>, elemSize: nat, b: nat)
    requires 1 <= b <= 31 && HoldsRecords(db, records, elemSize, b) && Rect(db, w)
    ensures forall i, j | 0 <= i < |db| && 0 <= j < w :: db[i][j] < PlaintextSize(b)
  {
    forall i, j | 0 <= i < |db| && 0 <= j < w
      ensures db[i][j] < PlaintextSize(b)
    {
      assert db[i] == RecordRow(records[i], elemSize, b);
    }
  }

  /** Along every run over a database of records, every query that is created brings back the wanted
      record exactly when the packing can be undone for it, whatever the ternary errors, provided the
      number of records is within the noise bound. */
  lemma RunRetrieves(b: nat, elemSize: nat, records: seq<seq<byte>>, db: Grid, w: nat, a: Grid, s: Client,
                     secrets: Grid, errors: Grid, indices: seq<nat>, k: nat)
    requires 1 <= b <= 31 && elemSize > 0 && w == RowWidth(elemSize, b) && HoldsRecords(db, records, elemSize, b)
    requires Rect(a, |db|) && Rect(db, w) && Prepared(s, secrets, errors, a, db, w)
    requires forall i | 0 <= i < |errors| :: Ternary(errors[i])
    requires |db| * (PlaintextSize(b) - 1) < RoundingFloor(b)
    requires k < |indices| && Results(s, RoundingFactor(b), indices)[k].Created?
    ensures indices[k] < |records|
    ensures var q := Results(s, RoundingFactor(b), indices)[k].q;
            |q.b| == |db| && |q.c| == w &&
            var row := ParseResponse(b, w, q, Respond(Transposed(db, w), q));
            var record, kept := records[indices[k]], Kept(elemSize, b);
            var bits := Octets(record);
            PackBytes(RowBits(row, b, elemSize % b)) == record <==>
            kept <= |bits| < kept + 8 && bits[kept..] == Zeros(|bits| - kept)
  {
    EntriesArePlaintexts(db, w, records, elemSize, b);
    RunAlwaysDecodes(b, s, secrets, errors, a, db, w, indices, k);
    RecordRoundTrip(records[indices[k]], elemSize, b);
  }

  /** The same for the client that is prepared in fact, whose error rows are zero: every index that exists,
      asked while rows are left, brings back its record under the same condition, for any number of records. */
  lemma FreshRunRetrieves(b: nat, elemSize: nat, records: seq<seq<byte>>, db: Grid, w: nat, a: Grid, queries: nat,
                          indices: seq<nat>, k: nat)
    requires 1 <= b <= 31 && elemSize > 0 && w == RowWidth(elemSize, b) && HoldsRecords(db, records, elemSize, b)
    requires Rect(a, |db|) && Rect(db, w)
    requires k < |indices| && k < queries && indices[k] < |records|
    ensures var r := Results(FreshClient(queries, a, db, w), RoundingFactor(b), indices)[k];
            r.Created? && |r.q.b| == |db| && |r.q.c| == w &&
            var row := ParseResponse(b, w, r.q, Respond(Transposed(db, w), r.q));
            var record, kept := records[indices[k]], Kept(elemSize, b);
            var bits := Octets(record);
            PackBytes(RowBits(row, b, elemSize % b)) == record <==>
            kept <= |bits| < kept + 8 && bits[kept..] == Zeros(|bits| - kept)
  {
    EntriesArePlaintexts(db, w, records, elemSize, b);
    FreshRunDecodes(b, queries, a, db, w, indices, k);
    RecordRoundTrip(records[indices[k]], elemSize, b);
  }

  /** The matrix built from records holds them: every entry fits, because plaintexts are at most 31 bits. */
  method BuildDatabase(records: seq<seq<byte>>, elemSize: nat, b: nat) returns (r: Result<Matrix>)
    requires records != [] && elemSize > 0 && 1 <= b <= 31
    requires forall i | 0 <= i < |records| :: Cuttable(Octets(records[i]), b, RowWidth(elemSize, b))
    ensures r.Ok? && fresh(r.value) && r.value.Exact() && HoldsRecords(r.value.Contents(), records, elemSize, b)
    ensures r.value.rows == |records| && r.value.cols == RowWidth(elemSize, b) > 0
  {
    KeptIs(elemSize, b);
    forall i | 0 <= i < |records|
      ensures var s := Octets(records[i]);
              Fits(s, b, RowWidth(elemSize, b)) && Sliceable(s, b, RowWidth(elemSize, b))
    {
      NarrowFits(Octets(records[i]), b, RowWidth(elemSize, b));
    }
    r := NewFromVals(records, |records|, elemSize, b);
  }

  // ---------- the objects put together ----------

  datatype Answer = Found(bytes: seq<byte>) | Refused(e: Error)

  /** What call `k` brings: the record as far as it is read back, or the error of the call. */
  function Expected(records: seq<seq<byte>>, elemSize: nat, b: nat, queries: nat, index: nat, k: nat): (r: Answer)
    requires elemSize > 0 && b > 0
  {
    if k >= queries then Refused(ErrorQueryParamsReused)
    else if index >= |records| then Refused(ErrorOverflownAdd)
    else
      var kept := Resize(Octets(records[index]), Kept(elemSize, b));
      PackBelow(kept);
      Found(PackBytes(kept))
  }

  /** The answer to a call is the record exactly when what is not read back is zeros inside its last byte. */
  lemma FoundIsTheRecord(records: seq<seq<byte>>, elemSize: nat, b: nat, queries: nat, index: nat, k: nat)
    requires elemSize > 0 && b > 0 && k < queries && index < |records|
    ensures var bits, kept := Octets(records[index]), Kept(elemSize, b);
            Expected(records, elemSize, b, queries, index, k) == Found(records[index]) <==>
            kept <= |bits| < kept + 8 && bits[kept..] == Zeros(|bits| - kept)
  {
    PackResized(records[index], Kept(elemSize, b));
  }

  /** What call `k` of a fresh client returns, and what a created query decodes to. */
  lemma FreshCall(b: nat, elemSize: nat, records: seq<seq<byte>>, db: Grid, w: nat, a: Grid, queries: nat,
                  indices: seq<nat>, k: nat, r: QueryResult)
    requires 1 <= b <= 31 && elemSize > 0 && w == RowWidth(elemSize, b) && HoldsRecords(db, records, elemSize, b)
    requires Rect(a, |db|) && Rect(db, w) && k < |indices|
    requires r == Results(FreshClient(queries, a, db, w), RoundingFactor(b), indices)[k]
    ensures r.Failed? ==> Expected(records, elemSize, b, queries, indices[k], k) == Refused(r.e)
    ensures r.Created? ==> k < queries && indices[k] < |records| && |r.q.b| == |db| && |r.q.c| == w
    ensures r.Created? ==>
              ParseResponse(b, w, r.q, Respond(Transposed(db, w), r.q)) == RecordRow(records[indices[k]], elemSize, b)
  {
    EntriesArePlaintexts(db, w, records, elemSize, b);
    FreshRunDecodes(b, queries, a, db, w, indices, k);
    RunResults(FreshClient(queries, a, db, w), RoundingFactor(b), indices, k);
  }

  /** Client and server belong together: the server holds the transpose of `db`, and the shapes agree. */
  ghost predicate Serving(cp: ClientParams, bp: BaseParams, db: Grid, b: nat, elemSize: nat)
    reads cp.B, cp.C, bp.transDb
  {
    && cp.Valid() && 1 <= b <= 31 && cp.plaintextBits == b && elemSize > 0 && cp.dbW == RowWidth(elemSize, b)
    && Rect(db, cp.dbW) && cp.m == |db| && bp.transDb !in {cp.B, cp.C}
    && bp.transDb.Valid() && bp.transDb.rows == cp.dbW && bp.transDb.cols == |db|
    && bp.transDb.Contents() == Transposed(db, cp.dbW)
  }

  /** One call on the objects: the query, the server's answer, its decoding and the bytes. */
  method Ask(cp: ClientParams, bp: BaseParams, b: nat, elemSize: nat, index: nat, ghost db: Grid)
    returns (answer: Answer, ghost r: QueryResult)
    requires Serving(cp, bp, db, b, elemSize)
    modifies cp.B, cp.C
    ensures Serving(cp, bp, db, b, elemSize)
    ensures (cp.State(), r) == Step(old(cp.State()), RoundingFactor(b), index)
    ensures r.Failed? ==> answer == Refused(r.e)
    ensures r.Created? && |r.q.b| == |db| && |r.q.c| == cp.dbW ==>
              var row := ParseResponse(b, cp.dbW, r.q, Respond(Transposed(db, cp.dbW), r.q));
              answer.Found? && answer.bytes == PackBytes(RowBits(row, b, elemSize % b))
  {
    var q := CreateQuery(cp, index);
    r := q;
    if q.Failed? {
      return Refused(q.e), r;
    }
    var response := bp.CreateResponse(q.q);
    var row := ParseResponse(b, cp.dbW, q.q, response);
    var bytes := BytesFromU32Slice(row, b, elemSize);
    answer := Found(bytes);
  }

  lemma ResultsNext(s: Client, delta: u32, indices: seq<nat>, k: nat, all: seq<QueryResult>)
    requires k < |indices| == |all| && Results(s, delta, indices[k..]) == all[k..]
    ensures var next := Step(s, delta, indices[k]);
            next.1 == all[k] && Results(next.0, delta, indices[k + 1..]) == all[k + 1..]
  {
    assert indices[k..][1..] == indices[k + 1..];
    assert all[k..][1..] == all[k + 1..] && all[k..][0] == all[k];
  }

  /** What call `k` answered is what is expected of it. */
  lemma AnswerIsExpected(b: nat, elemSize: nat, records: seq<seq<byte>>, db: Grid, w: nat, a: Grid, queries: nat,
                         indices: seq<nat>, k: nat, r: QueryResult, answer: Answer)
    requires 1 <= b <= 31 && elemSize > 0 && w == RowWidth(elemSize, b) && HoldsRecords(db, records, elemSize, b)
    requires Rect(a, |db|) && Rect(db, w) && k < |indices|
    requires r == Results(FreshClient(queries, a, db, w), RoundingFactor(b), indices)[k]
    requires r.Failed? ==> answer == Refused(r.e)
    requires r.Created? && |r.q.b| == |db| && |r.q.c| == w ==>
               var row := ParseResponse(b, w, r.q, Respond(Transposed(db, w), r.q));
               answer.Found? && answer.bytes == PackBytes(RowBits(row, b, elemSize % b))
    ensures answer == Expected(records, elemSize, b, queries, indices[k], k)
  {
    FreshCall(b, elemSize, records, db, w, a, queries, indices, k, r);
    if r.Created? {
      RowBitsOfRecord(Octets(records[indices[k]]), elemSize, b);
    }
  }

  /** The first answers are what is expected of the first calls. */
  ghost predicate AsExpected(answers: seq<Answer>, records: seq<seq<byte>>, elemSize: nat, b: nat, queries: nat,
                             indices: seq<nat>)
    requires elemSize > 0 && b > 0
  {
    && |answers| <= |indices|
    && forall k | 0 <= k < |answers| :: answers[k] == Expected(records, elemSize, b, queries, indices[k], k)
  }

  lemma AnswersNext(answers: seq<Answer>, answer: Answer, records: seq<seq<byte>>, elemSize: nat, b: nat, queries: nat,
                    indices: seq<nat>)
    requires elemSize > 0 && b > 0 && |answers| < |indices|
    requires AsExpected(answers, records, elemSize, b, queries, indices)
    requires answer == Expected(records, elemSize, b, queries, indices[|answers|], |answers|)
    ensures AsExpected(answers + [answer], records, elemSize, b, queries, indices)
  {
  }

  /** The calls, one index after another, on a client in the state of `FreshClient`. */
  method AskAll(cp: ClientParams, bp: BaseParams, records: seq<seq<byte>>, elemSize: nat, b: nat, queries: nat,
                indices: seq<nat>, ghost a: Grid, ghost db: Grid) returns (answers: seq<Answer>)
    requires Serving(cp, bp, db, b, elemSize) && HoldsRecords(db, records, elemSize, b) && Rect(a, |db|)
    requires cp.State() == FreshClient(queries, a, db, cp.dbW)
    modifies cp.B, cp.C
    ensures |answers| == |indices| && AsExpected(answers, records, elemSize, b, queries, indices)
  {
    ghost var s := cp.State();
    ghost var delta, all := RoundingFactor(b), Results(s, RoundingFactor(b), indices);
    answers := [];
    assert indices[0..] == indices && all[0..] == all;
    for k := 0 to |indices|
      invariant Serving(cp, bp, db, b, elemSize) && cp.State() == s && |answers| == k
      invariant Results(s, delta, indices[k..]) == all[k..]
      invariant AsExpected(answers, records, elemSize, b, queries, indices)
    {
      ResultsNext(s, delta, indices, k, all);
      var answer, res := Ask(cp, bp, b, elemSize, indices[k], db);
      s := Step(s, delta, indices[k]).0;
      assert res == all[k];
      AnswerIsExpected(b, elemSize, records, db, cp.dbW, a, queries, indices, k, res, answer);
      AnswersNext(answers, answer, records, elemSize, b, queries, indices);
      answers := answers + [answer];
    }
  }

  /** The whole protocol on the objects, over any sequence of wanted indices. */
  method RetrieveAll(records: seq<seq<byte>>, elemSize: nat, b: nat, A: Matrix, queries: nat, sampledS: Grid,
                     sampledE: Grid, indices: seq<nat>) returns (r: Result<seq<Answer>>)
    requires records != [] && elemSize > 0 && 1 <= b <= 31 && queries > 0
    requires forall i | 0 <= i < |records| :: Cuttable(Octets(records[i]), b, RowWidth(elemSize, b))
    requires A.Valid() && A.rows > 0 && A.cols == |records|
    requires |sampledS| == |sampledE| == queries && Rect(sampledS, A.rows) && Rect(sampledE, |records|)
    ensures r.Ok? <==> queries < 0x10_0000_0000_0000
    ensures r.Ok? ==> |r.value| == |indices|
    ensures r.Ok? ==> forall k | 0 <= k < |indices| ::
              r.value[k] == Expected(records, elemSize, b, queries, indices[k], k)
  {
    var built := BuildDatabase(records, elemSize, b);
    var db := built.value;
    var bp := new BaseParams(db, A);
    var made, secrets, errors := ClientParams.New(|records|, A.rows, b, db.cols, A, bp.H, queries, sampledS, sampledE);
    if made.Err? {
      return Err;
    }
    var answers := AskAll(made.value, bp, records, elemSize, b, queries, indices, A.Contents(), db.Contents());
    r := Ok(answers);
  }
}
