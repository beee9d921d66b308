/**
 * Visitor recognition over the `face_embeddings` collection, in both
 * deployments: the relational one (default threshold 0.7) and the
 * document one (default threshold 0.6). The two differ only in how a row's
 * stored value is decoded and in the default threshold.
 */
module VisitorMatch {
  import opened Wrappers
  import opened VectorMath
  import opened StoredFormat
  import opened MatchEngine

  datatype Backend = Relational | Document

  /** One `face_embeddings` row: the owning client and the stored embedding. */
  datatype Row = Row(clientId: string, stored: Stored)

  function DefaultThreshold(b: Backend): (t: real)
    ensures b.Relational? ==> t == 0.7
    ensures b.Document? ==> t == 0.6
  {
    match b
    case Relational => 0.7
    case Document => 0.6
  }

  function Decode(b: Backend, c: Codec, s: Stored): Option<Vector> {
    match b
    case Relational => DecodeRelational(c, s)
    case Document => DecodeDocument(c, s)
  }

  /** The rows as scan candidates, in cursor order. */
  function VisitorCandidates(b: Backend, c: Codec, rows: seq<Row>): (cs: seq<Candidate>)
    ensures |cs| == |rows|
    ensures forall i :: 0 <= i < |rows| ==> cs[i].owner == rows[i].clientId
    ensures forall i :: 0 <= i < |rows| ==> cs[i].vector == Decode(b, c, rows[i].stored)
  {
    seq(|rows|, i requires 0 <= i < |rows| => Candidate(rows[i].clientId, Decode(b, c, rows[i].stored)))
  }

  /** The row at `i` decodes to a vector of the query's length. */
  predicate Readable(b: Backend, c: Codec, q: Vector, r: Row) {
    var v := Decode(b, c, r.stored);
    v.Some? && |v.value| == |q|
  }

  /** The squared distance from the query to a readable row's vector. */
  function RowDist(b: Backend, c: Codec, q: Vector, r: Row): real
    requires Readable(b, c, q, r)
  {
    SqDist(Decode(b, c, r.stored).value, q)
  }

  /**
   * The visitor `find_best_match`: `Match(id, d2)` names the client of the
   * first readable row closest to the query, at a squared distance within
   * the threshold; `NoMatch` exactly when every readable row lies beyond it.
   */
  function FindVisitor(b: Backend, c: Codec, q: Vector, rows: seq<Row>, threshold: real): (r: MatchResult)
    ensures r.Match? ==> AtMost(r.sqDist, threshold)
    ensures r.Match? ==> exists i :: && 0 <= i < |rows|
                                     && Readable(b, c, q, rows[i])
                                     && rows[i].clientId == r.id
                                     && RowDist(b, c, q, rows[i]) == r.sqDist
                                     && forall j :: 0 <= j < i && Readable(b, c, q, rows[j]) ==>
                                          r.sqDist < RowDist(b, c, q, rows[j])
    ensures r.Match? ==> forall j :: 0 <= j < |rows| && Readable(b, c, q, rows[j]) ==>
                           r.sqDist <= RowDist(b, c, q, rows[j])
    ensures r.NoMatch? <==> forall i :: 0 <= i < |rows| && Readable(b, c, q, rows[i]) ==>
                              Exceeds(RowDist(b, c, q, rows[i]), threshold)
  {
    var cs := VisitorCandidates(b, c, rows);
    CandidatesAgree(b, c, q, rows);
    var r := FindBestMatch(q, cs, threshold);
    if r.Match? then
      MatchIsFirstReadable(b, c, q, rows, threshold);
      r
    else
      r
  }

  /** A row is readable exactly when its candidate is usable, at the same distance. */
  lemma CandidatesAgree(b: Backend, c: Codec, q: Vector, rows: seq<Row>)
    ensures var cs := VisitorCandidates(b, c, rows);
            forall i :: 0 <= i < |rows| ==>
              && (Readable(b, c, q, rows[i]) <==> Usable(q, cs[i]))
              && (Readable(b, c, q, rows[i]) ==> RowDist(b, c, q, rows[i]) == Dist(q, cs[i]))
  {
  }

  lemma MatchIsFirstReadable(b: Backend, c: Codec, q: Vector, rows: seq<Row>, threshold: real)
    requires FindBestMatch(q, VisitorCandidates(b, c, rows), threshold).Match?
    ensures var r := FindBestMatch(q, VisitorCandidates(b, c, rows), threshold);
            exists i :: && 0 <= i < |rows|
                        && Readable(b, c, q, rows[i])
                        && rows[i].clientId == r.id
                        && RowDist(b, c, q, rows[i]) == r.sqDist
                        && forall j :: 0 <= j < i && Readable(b, c, q, rows[j]) ==>
                             r.sqDist < RowDist(b, c, q, rows[j])
    ensures var r := FindBestMatch(q, VisitorCandidates(b, c, rows), threshold);
            forall j :: 0 <= j < |rows| && Readable(b, c, q, rows[j]) ==> r.sqDist <= RowDist(b, c, q, rows[j])
  {
    var cs := VisitorCandidates(b, c, rows);
    var r := FindBestMatch(q, cs, threshold);
    CandidatesAgree(b, c, q, rows);
    var i :| IsFirstClosest(q, cs, i) && cs[i].owner == r.id && Dist(q, cs[i]) == r.sqDist;
    assert Readable(b, c, q, rows[i]);
  }

  /**
   * The visitor call with the backend's default threshold: a relational
   * match lies within squared distance 0.49 (distance 0.7), a document
   * match within 0.36 (distance 0.6).
   */
  function FindVisitorDefault(b: Backend, c: Codec, q: Vector, rows: seq<Row>): (r: MatchResult)
    ensures r.Match? && b.Relational? ==> r.sqDist <= 0.49
    ensures r.Match? && b.Document? ==> r.sqDist <= 0.36
    ensures r.NoMatch? && b.Relational? ==>
              forall i :: 0 <= i < |rows| && Readable(b, c, q, rows[i]) ==> RowDist(b, c, q, rows[i]) > 0.49
    ensures r.NoMatch? && b.Document? ==>
              forall i :: 0 <= i < |rows| && Readable(b, c, q, rows[i]) ==> RowDist(b, c, q, rows[i]) > 0.36
  {
    FindVisitor(b, c, q, rows, DefaultThreshold(b))
  }

  /** The form in which enrolment stores a vector: JSON text, or a native list. */
  predicate Enrolled(b: Backend, c: Codec, s: Stored, v: Vector) {
    match b
    case Relational => s.Text? && c.parseJson(s.json) == Some(ToJson(v))
    case Document => s == Native(ToJson(v))
  }

  /** An enrolled template decodes back to the enrolled vector. */
  lemma EnrolledDecodes(b: Backend, c: Codec, s: Stored, v: Vector)
    requires Enrolled(b, c, s, v)
    ensures Decode(b, c, s) == Some(v)
  {
    AsVectorToJson(v);
  }

  /**
   * Presenting the very vector a client enrolled is recognised, under the
   * default threshold, as that client, at distance zero, provided no earlier
   * row is also at distance zero.
   */
  lemma EnrolledVisitorMatches(b: Backend, c: Codec, q: Vector, rows: seq<Row>, k: int)
    requires 0 <= k < |rows| && Enrolled(b, c, rows[k].stored, q)
    requires forall j :: 0 <= j < k && Readable(b, c, q, rows[j]) ==> RowDist(b, c, q, rows[j]) != 0.0
    ensures FindVisitor(b, c, q, rows, DefaultThreshold(b)) == Match(rows[k].clientId, 0.0)
  {
    var cs := VisitorCandidates(b, c, rows);
    EnrolledDecodes(b, c, rows[k].stored, q);
    assert forall j :: 0 <= j < k && Usable(q, cs[j]) ==> Dist(q, cs[j]) != 0.0 by {
      forall j | 0 <= j < k && Usable(q, cs[j])
        ensures Dist(q, cs[j]) != 0.0
      {
        assert Readable(b, c, q, rows[j]);
      }
    }
    ExactMatch(q, cs, k, DefaultThreshold(b));
  }

  /**
   * A stored `[true]` reads as `[1.0]` in both readers, so it is a candidate
   * like any list of numbers: the query `[1.0]` matches its client at
   * distance zero under any non-negative threshold.
   */
  lemma BooleanRowMatches(b: Backend, c: Codec, id: string, threshold: real)
    requires threshold >= 0.0
    ensures FindVisitor(b, c, [1.0], [Row(id, Native(JArr([JBool(true)])))], threshold) == Match(id, 0.0)
  {
    var rows := [Row(id, Native(JArr([JBool(true)])))];
    var v := AsVector(JArr([JBool(true)]));
    assert v.Some? && v.value == [1.0];
    assert Readable(b, c, [1.0], rows[0]);
    SqDistSelf([1.0]);
    assert RowDist(b, c, [1.0], rows[0]) == 0.0;
  }

  /**
   * A byte blob is invisible to the document reader but read by the
   * relational one: the same blob row can be a relational match and yet
   * never be a document candidate.
   */
  lemma BlobOnlyRelational(c: Codec, q: Vector, rows: seq<Row>, i: int)
    requires 0 <= i < |rows| && rows[i].stored.Blob?
    ensures !Readable(Document, c, q, rows[i])
    ensures (exists t :: c.decodeUtf8(rows[i].stored.bytes) == Some(t) && c.parseJson(t) == Some(ToJson(q)))
              ==> Readable(Relational, c, q, rows[i])
  {
    AsVectorToJson(q);
  }
}
