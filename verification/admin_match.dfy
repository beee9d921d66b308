/**
 * Administrator face login: the closest-template scan over the `admins`
 * table, where each admin's stored value holds either one flat vector (the
 * legacy format) or a list of vectors (one per capture angle), and the
 * second factor, the PIN check.
 *
 * Unlike the visitor scan, this scan catches nothing: a stored value that
 * does not decode, or a candidate that cannot be compared with the query,
 * aborts the whole call.
 */
module AdminMatch {
  import opened Wrappers
  import opened VectorMath
  import opened StoredFormat
  import opened MatchEngine

  /** One `admins` row: the admin's id (already as text) and stored embedding. */
  datatype AdminRow = AdminRow(id: string, stored: Stored)

  const AdminThreshold: real := 0.6

  /** One candidate vector, which must be a list of numbers of the query's length. */
  function Comparable(q: Vector, j: Json): (r: Result<Vector, Fault>)
    ensures r.Success? <==> AsVector(j).Some? && |AsVector(j).value| == |q|
    ensures r.Success? ==> r.value == AsVector(j).value
    ensures r.Failure? ==> r.error == ShapeMismatch
  {
    match AsVector(j)
    case Some(v) => if |v| == |q| then Success(v) else Failure(ShapeMismatch)
    case None => Failure(ShapeMismatch)
  }

  /**
   * A stored vector is comparable with a query of its own length, as
   * itself, and raises against a query of any other length.
   */
  lemma ComparableToJson(q: Vector, v: Vector)
    ensures |v| == |q| ==> Comparable(q, ToJson(v)) == Success(v)
    ensures |v| != |q| ==> Comparable(q, ToJson(v)) == Failure(ShapeMismatch)
  {
    AsVectorToJson(v);
  }

  /** Every element of a list of vectors, in order; the first bad one aborts. */
  function ComparableAll(q: Vector, items: seq<Json>): (r: Result<seq<Vector>, Fault>)
    ensures r.Success? <==> forall k :: 0 <= k < |items| ==> Comparable(q, items[k]).Success?
    ensures r.Failure? ==> r.error == ShapeMismatch
    ensures r.Success? ==> |r.value| == |items|
                           && forall k :: 0 <= k < |items| ==> r.value[k] == Comparable(q, items[k]).value
  {
    if |items| == 0 then Success([])
    else
      match Comparable(q, items[0])
      case Failure(e) => Failure(e)
      case Success(v) =>
        match ComparableAll(q, items[1..])
        case Failure(e) => Failure(e)
        case Success(vs) => Success([v] + vs)
  }

  /**
   * The candidates one admin row contributes: none for an empty value or a
   * value that is not a non-empty list; one per inner list when the first
   * element is a list; otherwise the whole list as one vector.
   */
  function RowCandidates(c: Codec, q: Vector, s: Stored): (r: Result<seq<Vector>, Fault>)
    ensures Falsy(s) ==> r == Success([])
    ensures !Falsy(s) && ParseStored(c, s).None? ==> r == Failure(Unparsable)
    ensures !Falsy(s) && ParseStored(c, s).Some? ==>
              var j := ParseStored(c, s).value;
              if j.JArr? && |j.items| > 0 && j.items[0].JArr? then r == ComparableAll(q, j.items)
              else if j.JArr? && |j.items| > 0 then
                && (r.Success? <==> AsVector(j).Some? && |AsVector(j).value| == |q|)
                && (r.Success? ==> r.value == [AsVector(j).value])
                && (r.Failure? ==> r.error == ShapeMismatch)
              else r == Success([])
    ensures r.Success? ==> forall k :: 0 <= k < |r.value| ==> |r.value[k]| == |q|
  {
    if Falsy(s) then Success([])
    else
      match ParseStored(c, s)
      case None => Failure(Unparsable)
      case Some(j) =>
        if j.JArr? && |j.items| > 0 then
          if j.items[0].JArr? then ComparableAll(q, j.items)
          else
            match Comparable(q, j)
            case Failure(e) => Failure(e)
            case Success(v) => Success([v])
        else Success([])
  }

  /** Each row's candidates, rows in cursor order; the first faulting row aborts. */
  function RowsCandidates(c: Codec, q: Vector, rows: seq<AdminRow>): (r: Result<seq<seq<Vector>>, Fault>)
    ensures r.Failure? <==> exists i :: 0 <= i < |rows| && RowCandidates(c, q, rows[i].stored).Failure?
    ensures r.Success? ==> && |r.value| == |rows|
                           && forall i :: 0 <= i < |rows| ==> RowCandidates(c, q, rows[i].stored) == Success(r.value[i])
  {
    if |rows| == 0 then Success([])
    else
      match RowCandidates(c, q, rows[0].stored)
      case Failure(e) => Failure(e)
      case Success(vs) =>
        var rest := RowsCandidates(c, q, rows[1..]);
        assert forall i :: 1 <= i < |rows| ==> rows[i] == rows[1..][i - 1];
        match rest
        case Failure(e) => Failure(e)
        case Success(vss) => Success([vs] + vss)
  }

  /** One admin's vectors as scan candidates labelled by that admin. */
  function Label(id: string, vs: seq<Vector>): (cs: seq<Candidate>)
    ensures |cs| == |vs| && forall k :: 0 <= k < |vs| ==> cs[k] == Candidate(id, Some(vs[k]))
  {
    seq(|vs|, k requires 0 <= k < |vs| => Candidate(id, Some(vs[k])))
  }

  /** The nested loops' visiting order: every vector of row 0, then of row 1, and so on. */
  function Flatten(ids: seq<string>, vss: seq<seq<Vector>>): seq<Candidate>
    requires |ids| == |vss|
  {
    if |ids| == 0 then [] else Label(ids[0], vss[0]) + Flatten(ids[1..], vss[1..])
  }

  /** Admin `ids[i]` offers `v`. */
  ghost predicate Offered(ids: seq<string>, vss: seq<seq<Vector>>, id: string, v: Vector)
    requires |ids| == |vss|
  {
    exists i :: 0 <= i < |ids| && ids[i] == id && v in vss[i]
  }

  /** The flattened order holds every offered vector and nothing else. */
  lemma {:induction false} FlattenExact(ids: seq<string>, vss: seq<seq<Vector>>)
    requires |ids| == |vss|
    ensures forall k :: 0 <= k < |Flatten(ids, vss)| ==>
              && Flatten(ids, vss)[k].vector.Some?
              && Offered(ids, vss, Flatten(ids, vss)[k].owner, Flatten(ids, vss)[k].vector.value)
    ensures forall i, v :: 0 <= i < |ids| && v in vss[i] ==> Candidate(ids[i], Some(v)) in Flatten(ids, vss)
  {
    if |ids| > 0 {
      var head := Label(ids[0], vss[0]);
      var rest := Flatten(ids[1..], vss[1..]);
      FlattenExact(ids[1..], vss[1..]);
      var cs := Flatten(ids, vss);
      assert cs == head + rest;
      forall k | 0 <= k < |cs|
        ensures cs[k].vector.Some? && Offered(ids, vss, cs[k].owner, cs[k].vector.value)
      {
        if k < |head| {
          assert cs[k] == head[k];
          assert vss[0][k] in vss[0];
        } else {
          assert cs[k] == rest[k - |head|];
          var i :| 0 <= i < |ids[1..]| && ids[1..][i] == cs[k].owner && cs[k].vector.value in vss[1..][i];
          assert ids[i + 1] == cs[k].owner && cs[k].vector.value in vss[i + 1];
        }
      }
      forall i, v | 0 <= i < |ids| && v in vss[i]
        ensures Candidate(ids[i], Some(v)) in cs
      {
        if i == 0 {
          var k :| 0 <= k < |vss[0]| && vss[0][k] == v;
          assert cs[k] == head[k];
        } else {
          assert ids[i] == ids[1..][i - 1] && vss[i] == vss[1..][i - 1];
          var k :| 0 <= k < |rest| && rest[k] == Candidate(ids[i], Some(v));
          assert cs[|head| + k] == rest[k];
        }
      }
    }
  }

  function Ids(rows: seq<AdminRow>): (ids: seq<string>)
    ensures |ids| == |rows| && forall i :: 0 <= i < |rows| ==> ids[i] == rows[i].id
  {
    seq(|rows|, i requires 0 <= i < |rows| => rows[i].id)
  }

  /** Admin `id`'s row decodes and offers vector `v` as a candidate. */
  ghost predicate Offers(c: Codec, q: Vector, rows: seq<AdminRow>, id: string, v: Vector) {
    exists i :: && 0 <= i < |rows|
                && rows[i].id == id
                && RowCandidates(c, q, rows[i].stored).Success?
                && v in RowCandidates(c, q, rows[i].stored).value
  }

  /** Row `i` decodes and offers vector `w`. */
  ghost predicate RowOffers(c: Codec, q: Vector, r: AdminRow, w: Vector) {
    RowCandidates(c, q, r.stored).Success? && w in RowCandidates(c, q, r.stored).value
  }

  /** No offered vector is closer to the query than squared distance `d2`. */
  ghost predicate NoneCloser(c: Codec, q: Vector, rows: seq<AdminRow>, d2: real) {
    forall i, w :: 0 <= i < |rows| && RowOffers(c, q, rows[i], w) ==> d2 <= SqDist(w, q)
  }

  /** Every offered vector lies beyond the threshold. */
  ghost predicate AllBeyond(c: Codec, q: Vector, rows: seq<AdminRow>, threshold: real) {
    forall i, w :: 0 <= i < |rows| && RowOffers(c, q, rows[i], w) ==> Exceeds(SqDist(w, q), threshold)
  }

  /**
   * `find_best_admin_match`: a fault in any row aborts the call; otherwise
   * the admin owning the first closest candidate over all admins and all
   * their candidates, if within the threshold.
   */
  function FindBestAdminMatch(c: Codec, q: Vector, rows: seq<AdminRow>, threshold: real): (r: Result<MatchResult, Fault>)
    ensures r.Failure? <==> exists i :: 0 <= i < |rows| && RowCandidates(c, q, rows[i].stored).Failure?
    ensures r.Success? && r.value.Match? ==>
              && AtMost(r.value.sqDist, threshold)
              && (exists v :: Offers(c, q, rows, r.value.id, v) && SqDist(v, q) == r.value.sqDist)
              && NoneCloser(c, q, rows, r.value.sqDist)
    ensures r.Success? ==> (r.value.NoMatch? <==> AllBeyond(c, q, rows, threshold))
    ensures r.Success? && r.value.Match? ==>
              && RowsCandidates(c, q, rows).Success?
              && exists k :: && IsFirstClosest(q, Flatten(Ids(rows), RowsCandidates(c, q, rows).value), k)
                             && Flatten(Ids(rows), RowsCandidates(c, q, rows).value)[k].owner == r.value.id
  {
    match RowsCandidates(c, q, rows)
    case Failure(e) => Failure(e)
    case Success(vss) =>
      var cs := Flatten(Ids(rows), vss);
      var m := FindBestMatch(q, cs, threshold);
      NoMatchToRows(c, q, rows, vss, threshold, m);
      if m.Match? then
        MatchToRows(c, q, rows, vss, threshold, m);
        Success(m)
      else
        Success(m)
  }

  lemma NoMatchToRows(c: Codec, q: Vector, rows: seq<AdminRow>, vss: seq<seq<Vector>>, threshold: real, m: MatchResult)
    requires RowsCandidates(c, q, rows) == Success(vss)
    requires m == FindBestMatch(q, Flatten(Ids(rows), vss), threshold)
    ensures m.NoMatch? <==> AllBeyond(c, q, rows, threshold)
  {
    var cs := Flatten(Ids(rows), vss);
    FlatToRows(c, q, rows, vss);
    RowsToFlat(c, q, rows, vss);
    if m.NoMatch? {
      forall j, w | 0 <= j < |rows| && RowOffers(c, q, rows[j], w)
        ensures Exceeds(SqDist(w, q), threshold)
      {
        var k :| 0 <= k < |cs| && cs[k] == Candidate(rows[j].id, Some(w));
        assert Usable(q, cs[k]);
      }
    }
  }

  /** Every flattened candidate is usable and offered by its owner's row. */
  lemma FlatToRows(c: Codec, q: Vector, rows: seq<AdminRow>, vss: seq<seq<Vector>>)
    requires RowsCandidates(c, q, rows) == Success(vss)
    ensures var cs := Flatten(Ids(rows), vss);
            forall k :: 0 <= k < |cs| ==> Usable(q, cs[k]) && Offers(c, q, rows, cs[k].owner, cs[k].vector.value)
  {
    var ids := Ids(rows);
    var cs := Flatten(ids, vss);
    FlattenExact(ids, vss);
    forall k | 0 <= k < |cs|
      ensures Usable(q, cs[k]) && Offers(c, q, rows, cs[k].owner, cs[k].vector.value)
    {
      var i :| 0 <= i < |ids| && ids[i] == cs[k].owner && cs[k].vector.value in vss[i];
      assert RowCandidates(c, q, rows[i].stored) == Success(vss[i]);
    }
  }

  /** Every vector a row offers appears in the flattened order, labelled by that row's admin. */
  lemma RowsToFlat(c: Codec, q: Vector, rows: seq<AdminRow>, vss: seq<seq<Vector>>)
    requires RowsCandidates(c, q, rows) == Success(vss)
    ensures forall i, w :: 0 <= i < |rows| && RowOffers(c, q, rows[i], w) ==>
              Candidate(rows[i].id, Some(w)) in Flatten(Ids(rows), vss)
  {
    FlattenExact(Ids(rows), vss);
  }

  lemma MatchToRows(c: Codec, q: Vector, rows: seq<AdminRow>, vss: seq<seq<Vector>>, threshold: real, m: MatchResult)
    requires RowsCandidates(c, q, rows) == Success(vss)
    requires m == FindBestMatch(q, Flatten(Ids(rows), vss), threshold) && m.Match?
    ensures exists v :: Offers(c, q, rows, m.id, v) && SqDist(v, q) == m.sqDist
    ensures NoneCloser(c, q, rows, m.sqDist)
  {
    var cs := Flatten(Ids(rows), vss);
    var i :| IsFirstClosest(q, cs, i) && cs[i].owner == m.id && Dist(q, cs[i]) == m.sqDist;
    FlatToRows(c, q, rows, vss);
    assert Offers(c, q, rows, m.id, cs[i].vector.value);
    ClosestToRows(c, q, rows, vss, i);
  }

  /** The first closest flattened candidate is no farther than any vector a row offers. */
  lemma ClosestToRows(c: Codec, q: Vector, rows: seq<AdminRow>, vss: seq<seq<Vector>>, i: int)
    requires RowsCandidates(c, q, rows) == Success(vss)
    requires IsFirstClosest(q, Flatten(Ids(rows), vss), i)
    ensures NoneCloser(c, q, rows, Dist(q, Flatten(Ids(rows), vss)[i]))
  {
    var cs := Flatten(Ids(rows), vss);
    RowsToFlat(c, q, rows, vss);
    forall j, w | 0 <= j < |rows| && RowOffers(c, q, rows[j], w)
      ensures Dist(q, cs[i]) <= SqDist(w, q)
    {
      var k :| 0 <= k < |cs| && cs[k] == Candidate(rows[j].id, Some(w));
      assert Usable(q, cs[k]);
    }
  }

  /** The default-threshold call of the login route. */
  function FindBestAdminMatchDefault(c: Codec, q: Vector, rows: seq<AdminRow>): (r: Result<MatchResult, Fault>)
    ensures r.Success? && r.value.Match? ==> AtMost(r.value.sqDist, 0.6)
  {
    FindBestAdminMatch(c, q, rows, AdminThreshold)
  }

  /** The multi-angle storage format: one JSON list per captured vector. */
  function ListOfVectors(vs: seq<Vector>): (j: Json)
    ensures j.JArr? && |j.items| == |vs|
  {
    JArr(seq(|vs|, k requires 0 <= k < |vs| => ToJson(vs[k])))
  }

  /**
   * Both storage formats expand as intended: a flat vector is one
   * candidate, and a list of vectors is one candidate per vector, in order.
   */
  lemma StoredFormatsExpand(c: Codec, q: Vector, v: Vector, vs: seq<Vector>)
    requires |v| == |q| > 0
    requires |vs| > 0 && forall k :: 0 <= k < |vs| ==> |vs[k]| == |q|
    ensures RowCandidates(c, q, Native(ToJson(v))) == Success([v])
    ensures RowCandidates(c, q, Native(ListOfVectors(vs))) == Success(vs)
  {
    AsVectorToJson(v);
    var j := ListOfVectors(vs);
    forall k | 0 <= k < |vs|
      ensures Comparable(q, j.items[k]) == Success(vs[k])
    {
      AsVectorToJson(vs[k]);
    }
    assert !Falsy(Native(j)) by {
      assert j.items[0] in j.items;
    }
    assert ComparableAll(q, j.items).value == vs;
  }

  /** A stored flat vector whose length differs from the query's aborts the scan. */
  lemma FlatWrongLengthRaises(c: Codec, q: Vector, v: Vector)
    requires |v| > 0 && |v| != |q|
    ensures RowCandidates(c, q, Native(ToJson(v))) == Failure(ShapeMismatch)
  {
    AsVectorToJson(v);
    assert ToJson(v).items[0] in ToJson(v).items;
  }

  /** So does a list of vectors in which any one vector has the wrong length. */
  lemma ListWrongLengthRaises(c: Codec, q: Vector, vs: seq<Vector>, k: int)
    requires 0 <= k < |vs| && |vs[k]| != |q|
    ensures RowCandidates(c, q, Native(ListOfVectors(vs))) == Failure(ShapeMismatch)
  {
    var j := ListOfVectors(vs);
    AsVectorToJson(vs[k]);
    assert j.items[k] == ToJson(vs[k]);
    assert Comparable(q, j.items[k]).Failure?;
    assert ComparableAll(q, j.items).Failure?;
    assert j.items[0] == ToJson(vs[0]) && j.items[0] in j.items;
    assert !Falsy(Native(j));
  }

  /** `n` copies of `x`: the constant vectors of the two-factor login scenario. */
  function Fill(n: nat, x: real): (v: Vector)
    ensures |v| == n && forall k :: 0 <= k < n ==> v[k] == x
  {
    seq(n, k => x)
  }

  lemma {:induction false} FillGap(n: nat)
    ensures SqDist(Fill(n, 0.9), Fill(n, 0.1)) == 0.64 * n as real
  {
    if n > 0 {
      FillGap(n - 1);
      assert Fill(n, 0.9)[1..] == Fill(n - 1, 0.9);
      assert Fill(n, 0.1)[1..] == Fill(n - 1, 0.1);
    }
  }

  /** A lone admin enrolled with captures of `e` is recognised from `e`, at distance zero. */
  lemma LoneAdminRecognised(c: Codec, id: string, e: Vector, threshold: real)
    requires |e| > 0 && 0.0 <= threshold
    ensures FindBestAdminMatch(c, e, [AdminRow(id, Native(ListOfVectors([e, e, e])))], threshold)
              == Success(Match(id, 0.0))
  {
    var rows := [AdminRow(id, Native(ListOfVectors([e, e, e])))];
    StoredFormatsExpand(c, e, e, [e, e, e]);
    SqDistSelf(e);
    var r := FindBestAdminMatch(c, e, rows, threshold);
    assert RowOffers(c, e, rows[0], e);
    assert r.Success? && r.value.Match? && r.value.sqDist == 0.0;
  }

  /** A capture farther than the threshold from a lone admin's captures is rejected. */
  lemma LoneAdminRejects(c: Codec, id: string, e: Vector, far: Vector, threshold: real)
    requires |e| == |far| > 0 && Exceeds(SqDist(e, far), threshold)
    ensures FindBestAdminMatch(c, far, [AdminRow(id, Native(ListOfVectors([e, e, e])))], threshold)
              == Success(NoMatch)
  {
    var rows := [AdminRow(id, Native(ListOfVectors([e, e, e])))];
    StoredFormatsExpand(c, far, far, [e, e, e]);
    assert forall i, w :: 0 <= i < |rows| && RowOffers(c, far, rows[i], w) ==> w == e;
    assert AllBeyond(c, far, rows, threshold);
  }

  /**
   * The two-factor login scenario: one admin enrolled with three identical
   * captures of 0.1 in every one of 128 dimensions is recognised from that
   * capture, and a capture of 0.9 everywhere is rejected under the default
   * threshold (its squared distance is 81.92).
   */
  lemma TwoFactorScenario(c: Codec, id: string)
    ensures var e := Fill(128, 0.1);
            FindBestAdminMatch(c, e, [AdminRow(id, Native(ListOfVectors([e, e, e])))], AdminThreshold)
              == Success(Match(id, 0.0))
    ensures var e := Fill(128, 0.1);
            FindBestAdminMatch(c, Fill(128, 0.9), [AdminRow(id, Native(ListOfVectors([e, e, e])))], AdminThreshold)
              == Success(NoMatch)
  {
    var e := Fill(128, 0.1);
    var far := Fill(128, 0.9);
    LoneAdminRecognised(c, id, e, AdminThreshold);
    FillGap(128);
    SqDistSymmetric(far, e);
    LoneAdminRejects(c, id, e, far, AdminThreshold);
  }

  /**
   * Two admins enrolled with the same capture: the strict comparison keeps
   * the first one in cursor order, so the earlier row's admin is named.
   */
  lemma TieGoesToFirstAdmin(c: Codec, first: string, second: string, e: Vector, threshold: real)
    requires |e| > 0 && 0.0 <= threshold
    ensures FindBestAdminMatch(c, e, [AdminRow(first, Native(ListOfVectors([e]))),
                                      AdminRow(second, Native(ListOfVectors([e])))], threshold)
              == Success(Match(first, 0.0))
  {
    var rows := [AdminRow(first, Native(ListOfVectors([e]))), AdminRow(second, Native(ListOfVectors([e])))];
    StoredFormatsExpand(c, e, e, [e]);
    SqDistSelf(e);
    var vss := RowsCandidates(c, e, rows).value;
    assert vss == [[e], [e]];
    var cs := Flatten(Ids(rows), vss);
    assert Ids(rows) == [first, second];
    assert Flatten([second], [[e]]) == Label(second, [e]) + Flatten([], []);
    assert Label(first, [e]) == [Candidate(first, Some(e))];
    assert Label(second, [e]) == [Candidate(second, Some(e))];
    assert cs == [Candidate(first, Some(e)), Candidate(second, Some(e))];
    var r := FindBestAdminMatch(c, e, rows, threshold);
    assert RowOffers(c, e, rows[0], e);
    var k :| IsFirstClosest(e, cs, k) && cs[k].owner == r.value.id;
    assert k == 0;
  }

  /** The admin record the PIN is checked against. */
  datatype Admin = Admin(id: string, pinHash: Option<string>)

  /**
   * `verify_admin_pin`: fails closed when the admin or the PIN is missing,
   * or when no PIN hash is stored; otherwise defers to the hash check.
   */
  function VerifyAdminPin(admin: Option<Admin>, pin: Option<string>, checkHash: (string, string) -> bool): (ok: bool)
    ensures ok ==> admin.Some? && admin.value.pinHash.Some? && pin.Some? &&
                   checkHash(admin.value.pinHash.value, pin.value)
    ensures admin.None? ==> !ok
    ensures (pin.None? || pin == Some("")) ==> !ok
    ensures admin.Some? && (admin.value.pinHash.None? || admin.value.pinHash == Some("")) ==> !ok
    ensures admin.Some? && admin.value.pinHash.Some? && admin.value.pinHash.value != "" &&
            pin.Some? && pin.value != "" ==>
              (ok <==> checkHash(admin.value.pinHash.value, pin.value))
  {
    && admin.Some?
    && pin.Some? && |pin.value| > 0
    && admin.value.pinHash.Some? && |admin.value.pinHash.value| > 0
    && checkHash(admin.value.pinHash.value, pin.value)
  }
}
