/**
 * Adaptive template update (`improve_client_embedding`): after a client has
 * been recognised, fold the fresh capture into that client's templates.
 *
 * With no template yet the capture becomes the first. Otherwise the
 * closest template decides: an outlier is refused, a near duplicate is
 * blended into it (80/20), a distinct look is added while the client has
 * room, and once full the capture is blended into the closest (70/30).
 */
module AdaptiveUpdate {
  import opened Wrappers
  import opened VectorMath
  import opened MatchEngine
  import opened TemplateStore
  import opened Text

  /** The status strings the update reports. */
  datatype Outcome =
    | AddedInitial
    | RejectedOutlier
    | MergedExisting
    | AddedNewVariant
    | MergeLimitReached
    | NoAction

  datatype Policy = Policy(matchThreshold: real, mergeThreshold: real, maxTemplates: int)

  /** The defaults: match 0.5, merge 0.25, at most 3 templates. */
  const DefaultPolicy := Policy(0.5, 0.25, 3)

  /** The fixed second bound a far capture must also exceed to be refused. */
  const OutlierThreshold: real := 0.75

  datatype Update = Update(outcome: Outcome, store: Store)

  function AsCandidates(docs: seq<Template>): (cs: seq<Candidate>)
    ensures |cs| == |docs|
    ensures forall k :: 0 <= k < |docs| ==> cs[k] == Candidate(docs[k].owner, Some(docs[k].vector))
  {
    seq(|docs|, k requires 0 <= k < |docs| => Candidate(docs[k].owner, Some(docs[k].vector)))
  }

  /** Every template has the capture's length, so every distance is defined. */
  predicate Comparable(docs: seq<Template>, v: Vector) {
    forall k :: 0 <= k < |docs| ==> |docs[k].vector| == |v|
  }

  function Gap(t: Template, v: Vector): real
    requires |t.vector| == |v|
  {
    SqDist(t.vector, v)
  }

  /** The first template closest to the capture. */
  function Closest(docs: seq<Template>, v: Vector): (k: nat)
    requires |docs| > 0 && Comparable(docs, v)
    ensures k < |docs|
    ensures forall j :: 0 <= j < |docs| ==> Gap(docs[k], v) <= Gap(docs[j], v)
    ensures forall j :: 0 <= j < k ==> Gap(docs[k], v) < Gap(docs[j], v)
  {
    var cs := AsCandidates(docs);
    assert Usable(v, cs[0]);
    var b := Scan(v, cs).value;
    assert forall j :: 0 <= j < |docs| ==> Usable(v, cs[j]) && Dist(v, cs[j]) == Gap(docs[j], v);
    b.index
  }

  /** Both distance tests of the outlier guard fail to hold back the capture. */
  predicate Outlier(d2: real, p: Policy) {
    Exceeds(d2, p.matchThreshold) && Exceeds(d2, OutlierThreshold)
  }

  /**
   * The decision, from the closest template's squared distance and the
   * client's template count, in the source's order: outlier, near
   * duplicate, room for another look, full.
   */
  function Classify(d2: real, count: int, p: Policy): (o: Outcome)
    ensures o == RejectedOutlier <==> Outlier(d2, p)
    ensures o == MergedExisting <==> !Outlier(d2, p) && Below(d2, p.mergeThreshold)
    ensures o == AddedNewVariant <==> !Outlier(d2, p) && !Below(d2, p.mergeThreshold) && count < p.maxTemplates
    ensures o == MergeLimitReached <==> !Outlier(d2, p) && !Below(d2, p.mergeThreshold) && count >= p.maxTemplates
  {
    if Outlier(d2, p) then RejectedOutlier
    else if Below(d2, p.mergeThreshold) then MergedExisting
    else if count < p.maxTemplates then AddedNewVariant
    else MergeLimitReached
  }

  /** Carry out an outcome on the store, for the chosen template `near`. */
  function Apply(s: Store, id: string, v: Vector, near: Template, o: Outcome): (r: Store)
    requires |near.vector| == |v|
    ensures o == RejectedOutlier || o == NoAction ==> r == s
    ensures o == AddedInitial || o == AddedNewVariant ==> r == Add(s, Upper(id), v)
    ensures o == MergedExisting ==> r == SetVector(s, near.handle, Mix(near.vector, v, 0.8, 0.2))
    ensures o == MergeLimitReached ==> r == SetVector(s, near.handle, Mix(near.vector, v, 0.7, 0.3))
    ensures WellFormed(s) ==> WellFormed(r)
  {
    match o
    case RejectedOutlier => s
    case NoAction => s
    case AddedInitial => Add(s, Upper(id), v)
    case AddedNewVariant => Add(s, Upper(id), v)
    case MergedExisting => SetVector(s, near.handle, Mix(near.vector, v, 0.8, 0.2))
    case MergeLimitReached => SetVector(s, near.handle, Mix(near.vector, v, 0.7, 0.3))
  }

  /**
   * The update. A capture whose length differs from a stored template's
   * aborts (`Failure(ShapeMismatch)`), as numpy's subtraction raises.
   */
  function Improve(s: Store, id: string, v: Vector, p: Policy): (r: Result<Update, Fault>)
    ensures var docs := Owned(s.templates, id);
            r.Failure? <==> |docs| > 0 && !Comparable(docs, v)
    ensures r.Failure? ==> r.error == ShapeMismatch
    ensures r.Success? ==> (r.value.outcome == AddedInitial <==> Count(s, id) == 0)
    ensures r.Success? ==> r.value.outcome != NoAction
    ensures r.Success? && WellFormed(s) ==> WellFormed(r.value.store)
    ensures r.Success? && r.value.outcome == RejectedOutlier ==> r.value.store == s
  {
    var docs := Owned(s.templates, id);
    if |docs| == 0 then Success(Update(AddedInitial, Add(s, Upper(id), v)))
    else if !Comparable(docs, v) then Failure(ShapeMismatch)
    else
      var near := docs[Closest(docs, v)];
      var o := Classify(Gap(near, v), |docs|, p);
      Success(Update(o, Apply(s, id, v, near, o)))
  }

  // ---- what decides the outcome, in terms of all templates --------------

  /** Every template is an outlier for the capture. */
  ghost predicate AllOutliers(docs: seq<Template>, v: Vector, p: Policy)
    requires Comparable(docs, v)
  {
    forall k :: 0 <= k < |docs| ==> Outlier(Gap(docs[k], v), p)
  }

  /** Some template lies strictly within the merge threshold. */
  ghost predicate SomeNear(docs: seq<Template>, v: Vector, p: Policy)
    requires Comparable(docs, v)
  {
    exists k :: 0 <= k < |docs| && Below(Gap(docs[k], v), p.mergeThreshold)
  }

  lemma BelowMonotone(d2: real, e2: real, t: real)
    requires d2 <= e2 && Below(e2, t)
    ensures Below(d2, t)
  {
  }

  /** The closest template is an outlier, or within the merge threshold, exactly when some or all are. */
  lemma ClosestDecides(docs: seq<Template>, v: Vector, p: Policy)
    requires |docs| > 0 && Comparable(docs, v)
    ensures Outlier(Gap(docs[Closest(docs, v)], v), p) <==> AllOutliers(docs, v, p)
    ensures Below(Gap(docs[Closest(docs, v)], v), p.mergeThreshold) <==> SomeNear(docs, v, p)
  {
    var c := Closest(docs, v);
    var d2 := Gap(docs[c], v);
    if SomeNear(docs, v, p) {
      var k :| 0 <= k < |docs| && Below(Gap(docs[k], v), p.mergeThreshold);
      BelowMonotone(d2, Gap(docs[k], v), p.mergeThreshold);
    }
  }

  /** The client's templates after the closest one (position `c`) takes vector `m`. */
  ghost predicate OnlyClosestChanged(before: seq<Template>, after: seq<Template>, c: int, m: Vector) {
    && 0 <= c < |before| && |after| == |before|
    && after[c] == before[c].(vector := m)
    && forall j :: 0 <= j < |before| && j != c ==> after[j] == before[j]
  }

  /** An update by a handle one of the client's templates holds, seen from that client. */
  lemma UpdateOwnedAt(s: Store, id: string, c: int, m: Vector)
    requires WellFormed(s)
    requires 0 <= c < Count(s, id)
    ensures var docs := Owned(s.templates, id);
            OnlyClosestChanged(docs, Owned(SetVector(s, docs[c].handle, m).templates, id), c, m)
  {
    var docs := Owned(s.templates, id);
    SetVectorCounts(s, docs[c].handle, m, id);
    OwnedHandlesDistinct(s.templates, id);
  }

  /** No other client's templates see an update by one of `id`'s handles. */
  lemma UpdateLeavesOthers(s: Store, id: string, c: int, m: Vector, other: string)
    requires WellFormed(s)
    requires 0 <= c < Count(s, id) && other != id
    ensures Owned(SetVector(s, Owned(s.templates, id)[c].handle, m).templates, other) == Owned(s.templates, other)
  {
    var docs := Owned(s.templates, id);
    var h := docs[c].handle;
    var i :| 0 <= i < |s.templates| && s.templates[i] == docs[c];
    SetVectorCounts(s, h, m, other);
    var theirs := Owned(s.templates, other);
    forall k | 0 <= k < |theirs|
      ensures theirs[k].handle != h
    {
      var j :| 0 <= j < |s.templates| && s.templates[j] == theirs[k];
    }
    assert RetargetAll(theirs, h, m) == theirs;
  }

  // ---- the outcomes, each characterised both ways ------------------------

  /** Whether the update can compare the capture with the client's templates at all. */
  predicate Engaged(s: Store, id: string, v: Vector) {
    Count(s, id) > 0 && Comparable(Owned(s.templates, id), v)
  }

  /** The first capture of a client is stored as it is, under the upper-cased id. */
  lemma ImproveBootstrap(s: Store, id: string, v: Vector, p: Policy)
    requires Count(s, id) == 0
    ensures Improve(s, id, v, p) == Success(Update(AddedInitial, Add(s, Upper(id), v)))
    ensures id == Upper(id) ==> Owned(Improve(s, id, v, p).value.store.templates, id) == [Template(id, s.nextHandle, v)]
  {
  }

  /** A capture is refused exactly when every template is an outlier; nothing changes. */
  lemma ImproveRejects(s: Store, id: string, v: Vector, p: Policy)
    ensures var r := Improve(s, id, v, p);
            (r.Success? && r.value.outcome == RejectedOutlier) <==>
              Engaged(s, id, v) && AllOutliers(Owned(s.templates, id), v, p)
  {
    if Engaged(s, id, v) {
      ClosestDecides(Owned(s.templates, id), v, p);
    }
  }

  /**
   * A near duplicate (some template within the merge threshold, and not an
   * outlier) is blended 80/20 into the first closest template; the client
   * keeps the same number of templates and only that one changes.
   */
  lemma ImproveMergesNear(s: Store, id: string, v: Vector, p: Policy)
    requires WellFormed(s)
    ensures var r := Improve(s, id, v, p);
            (r.Success? && r.value.outcome == MergedExisting) <==>
              && Engaged(s, id, v)
              && !AllOutliers(Owned(s.templates, id), v, p)
              && SomeNear(Owned(s.templates, id), v, p)
    ensures var r := Improve(s, id, v, p);
            r.Success? && r.value.outcome == MergedExisting ==>
              var docs := Owned(s.templates, id);
              var c := Closest(docs, v);
              && OnlyClosestChanged(docs, Owned(r.value.store.templates, id), c, Mix(docs[c].vector, v, 0.8, 0.2))
              && Count(r.value.store, id) == Count(s, id)
  {
    if Engaged(s, id, v) {
      var docs := Owned(s.templates, id);
      var c := Closest(docs, v);
      ClosestDecides(docs, v, p);
      UpdateOwnedAt(s, id, c, Mix(docs[c].vector, v, 0.8, 0.2));
    }
  }

  /**
   * A distinct look (no outlier, nothing within the merge threshold) is
   * added as a new template while the client has fewer than the maximum.
   */
  lemma ImproveGrows(s: Store, id: string, v: Vector, p: Policy)
    ensures var r := Improve(s, id, v, p);
            (r.Success? && r.value.outcome == AddedNewVariant) <==>
              && Engaged(s, id, v)
              && !AllOutliers(Owned(s.templates, id), v, p)
              && !SomeNear(Owned(s.templates, id), v, p)
              && Count(s, id) < p.maxTemplates
    ensures var r := Improve(s, id, v, p);
            r.Success? && r.value.outcome == AddedNewVariant ==>
              Owned(r.value.store.templates, Upper(id)) ==
                Owned(s.templates, Upper(id)) + [Template(Upper(id), s.nextHandle, v)]
  {
    if Engaged(s, id, v) {
      ClosestDecides(Owned(s.templates, id), v, p);
    }
  }

  /**
   * A distinct look arriving when the client is full is blended 70/30 into
   * the first closest template instead.
   */
  lemma ImproveMergesAtLimit(s: Store, id: string, v: Vector, p: Policy)
    requires WellFormed(s)
    ensures var r := Improve(s, id, v, p);
            (r.Success? && r.value.outcome == MergeLimitReached) <==>
              && Engaged(s, id, v)
              && !AllOutliers(Owned(s.templates, id), v, p)
              && !SomeNear(Owned(s.templates, id), v, p)
              && Count(s, id) >= p.maxTemplates
    ensures var r := Improve(s, id, v, p);
            r.Success? && r.value.outcome == MergeLimitReached ==>
              var docs := Owned(s.templates, id);
              var c := Closest(docs, v);
              && OnlyClosestChanged(docs, Owned(r.value.store.templates, id), c, Mix(docs[c].vector, v, 0.7, 0.3))
              && Count(r.value.store, id) == Count(s, id)
  {
    if Engaged(s, id, v) {
      var docs := Owned(s.templates, id);
      var c := Closest(docs, v);
      ClosestDecides(docs, v, p);
      UpdateOwnedAt(s, id, c, Mix(docs[c].vector, v, 0.7, 0.3));
    }
  }

  /** Carrying out any outcome for one of `id`'s templates leaves other clients alone. */
  lemma ApplyFrame(s: Store, id: string, v: Vector, c: int, o: Outcome, other: string)
    requires WellFormed(s) && other != id && other != Upper(id)
    requires 0 <= c < Count(s, id) && |Owned(s.templates, id)[c].vector| == |v|
    ensures Owned(Apply(s, id, v, Owned(s.templates, id)[c], o).templates, other) == Owned(s.templates, other)
  {
    var near := Owned(s.templates, id)[c];
    if o == MergedExisting {
      UpdateLeavesOthers(s, id, c, Mix(near.vector, v, 0.8, 0.2), other);
    } else if o == MergeLimitReached {
      UpdateLeavesOthers(s, id, c, Mix(near.vector, v, 0.7, 0.3), other);
    }
  }

  /** Other clients' templates are never touched. */
  lemma ImproveFrame(s: Store, id: string, v: Vector, p: Policy, other: string)
    requires WellFormed(s) && other != id && other != Upper(id)
    requires Improve(s, id, v, p).Success?
    ensures Owned(Improve(s, id, v, p).value.store.templates, other) == Owned(s.templates, other)
  {
    var docs := Owned(s.templates, id);
    if |docs| > 0 {
      assert Improve(s, id, v, p).value.store ==
             Apply(s, id, v, docs[Closest(docs, v)], Improve(s, id, v, p).value.outcome);
      ApplyFrame(s, id, v, Closest(docs, v), Improve(s, id, v, p).value.outcome, other);
    }
  }

  /**
   * A client never gets more templates than the maximum (when that is at
   * least one), provided the id is already upper-case, so that the update
   * stores under the key it looked up.
   */
  lemma ImproveCapacity(s: Store, id: string, v: Vector, p: Policy)
    requires id == Upper(id)
    requires WellFormed(s) && 1 <= p.maxTemplates && Count(s, id) <= p.maxTemplates
    requires Improve(s, id, v, p).Success?
    ensures Count(Improve(s, id, v, p).value.store, id) <= p.maxTemplates
  {
    var r := Improve(s, id, v, p).value;
    if r.outcome == MergedExisting {
      ImproveMergesNear(s, id, v, p);
    } else if r.outcome == MergeLimitReached {
      ImproveMergesAtLimit(s, id, v, p);
    }
  }

  /** Feeding a client's captures one after another; a fault leaves the store as it was. */
  function ImproveAll(s: Store, id: string, vs: seq<Vector>, p: Policy): (r: Store)
    decreases |vs|
    ensures WellFormed(s) ==> WellFormed(r)
    ensures WellFormed(s) && 1 <= p.maxTemplates && id == Upper(id) && Count(s, id) <= p.maxTemplates ==>
              Count(r, id) <= p.maxTemplates
  {
    if |vs| == 0 then s
    else
      var next := match Improve(s, id, vs[0], p)
                  case Success(u) => u.store
                  case Failure(_) => s;
      StepKeepsCapacity(s, id, vs[0], p, next);
      ImproveAll(next, id, vs[1..], p)
  }

  lemma StepKeepsCapacity(s: Store, id: string, v: Vector, p: Policy, next: Store)
    requires next == (match Improve(s, id, v, p) case Success(u) => u.store case Failure(_) => s)
    ensures WellFormed(s) && 1 <= p.maxTemplates && id == Upper(id) && Count(s, id) <= p.maxTemplates ==>
              Count(next, id) <= p.maxTemplates
  {
    if WellFormed(s) && 1 <= p.maxTemplates && id == Upper(id) && Count(s, id) <= p.maxTemplates && Improve(s, id, v, p).Success? {
      ImproveCapacity(s, id, v, p);
    }
  }

  // ---- the blends --------------------------------------------------------

  /** Both blends keep each coordinate between the stored value and the captured one. */
  lemma BlendsStayBetween(prior: Vector, capture: Vector)
    requires |prior| == |capture|
    ensures forall i :: 0 <= i < |prior| ==>
              var m := Mix(prior, capture, 0.8, 0.2)[i];
              (prior[i] <= capture[i] ==> prior[i] <= m <= capture[i]) &&
              (capture[i] <= prior[i] ==> capture[i] <= m <= prior[i])
    ensures forall i :: 0 <= i < |prior| ==>
              var m := Mix(prior, capture, 0.7, 0.3)[i];
              (prior[i] <= capture[i] ==> prior[i] <= m <= capture[i]) &&
              (capture[i] <= prior[i] ==> capture[i] <= m <= prior[i])
  {
  }

  /** Blending a capture identical to the template leaves the template as it was. */
  lemma BlendsFixEqual(u: Vector)
    ensures Mix(u, u, 0.8, 0.2) == u
    ensures Mix(u, u, 0.7, 0.3) == u
  {
  }

  // ---- the document-store version as written -----------------------------

  /**
   * The document-store update as its code stands: both blend branches call
   * `datetime.now()` in a module that never imports `datetime`, so they
   * raise before writing anything. Every other branch behaves as `Improve`.
   */
  function ImproveDocumentAsWritten(s: Store, id: string, v: Vector, p: Policy): (r: Result<Update, Fault>)
    ensures r.Success? ==> r.value.store == s || r.value.store == Add(s, Upper(id), v)
    ensures r.Failure? <==> Improve(s, id, v, p).Failure? ||
                            Improve(s, id, v, p).value.outcome in {MergedExisting, MergeLimitReached}
  {
    match Improve(s, id, v, p)
    case Failure(e) => Failure(e)
    case Success(u) =>
      if u.outcome == MergedExisting || u.outcome == MergeLimitReached then Failure(NameUnbound)
      else Success(u)
  }

  /**
   * The discrepancy on the smallest input: a client with one stored template
   * presents that same vector again. The intended update blends it in
   * (`merged_existing`); the document-store code raises instead and the
   * template is never adapted.
   */
  lemma DocumentMergeRaises()
    ensures var s := Store([Template("C-1", 0, [1.0])], 1);
            && Improve(s, "C-1", [1.0], DefaultPolicy).Success?
            && Improve(s, "C-1", [1.0], DefaultPolicy).value.outcome == MergedExisting
            && ImproveDocumentAsWritten(s, "C-1", [1.0], DefaultPolicy) == Failure(NameUnbound)
  {
    var s := Store([Template("C-1", 0, [1.0])], 1);
    var docs := Owned(s.templates, "C-1");
    assert s.templates[..0] == [];
    assert docs == [Template("C-1", 0, [1.0])];
    SqDistSelf([1.0]);
    assert Gap(docs[0], [1.0]) == 0.0;
    assert Closest(docs, [1.0]) == 0;
  }

  // ---- the client id's case ----------------------------------------------

  /**
   * The update looks a client's templates up by the id exactly as given but
   * stores a new template under the upper-cased id. For an id that is not
   * upper-case and owns nothing, every capture is therefore taken for the
   * first one: it is stored, and the lookup still finds nothing.
   */
  lemma MixedCaseNeverFound(s: Store, id: string, v: Vector, p: Policy)
    requires id != Upper(id) && Count(s, id) == 0
    ensures Improve(s, id, v, p).Success?
    ensures Improve(s, id, v, p).value.outcome == AddedInitial
    ensures Count(Improve(s, id, v, p).value.store, id) == 0
    ensures Count(Improve(s, id, v, p).value.store, Upper(id)) == Count(s, Upper(id)) + 1
  {
  }

  /** So the upper-cased id gains one template per capture, past any maximum. */
  lemma {:induction false} MixedCaseGrowsWithoutBound(s: Store, id: string, vs: seq<Vector>, p: Policy)
    requires id != Upper(id) && Count(s, id) == 0
    ensures Count(ImproveAll(s, id, vs, p), Upper(id)) == Count(s, Upper(id)) + |vs|
    decreases |vs|
  {
    if |vs| > 0 {
      MixedCaseNeverFound(s, id, vs[0], p);
      MixedCaseGrowsWithoutBound(Improve(s, id, vs[0], p).value.store, id, vs[1..], p);
    }
  }

  /** The smallest instance: four captures for client "c-1" leave "C-1" with four templates. */
  lemma MixedCaseExceedsDefaultLimit()
    ensures Count(ImproveAll(Store([], 0), "c-1", [[1.0], [1.0], [1.0], [1.0]], DefaultPolicy), "C-1") == 4
    ensures 4 > DefaultPolicy.maxTemplates
  {
    UpperOfC1();
    var empty := Store([], 0);
    assert Owned(empty.templates, "c-1") == [] && Owned(empty.templates, "C-1") == [];
    MixedCaseGrowsWithoutBound(empty, "c-1", [[1.0], [1.0], [1.0], [1.0]], DefaultPolicy);
  }

  lemma UpperOfC1()
    ensures Upper("c-1") == "C-1" && "c-1" != "C-1"
  {
    var u := Upper("c-1");
    assert u[0] == 'C' && u[1] == '-' && u[2] == '1';
  }

  /**
   * The update with lookup and insert agreeing on the key: the id is
   * upper-cased before the templates are looked up, so the maximum holds
   * for every id.
   */
  function ImproveByKey(s: Store, id: string, v: Vector, p: Policy): (r: Result<Update, Fault>)
    ensures r.Success? && WellFormed(s) && 1 <= p.maxTemplates && Count(s, Upper(id)) <= p.maxTemplates ==>
              Count(r.value.store, Upper(id)) <= p.maxTemplates
    ensures r.Success? && WellFormed(s) ==> WellFormed(r.value.store)
  {
    UpperIdempotent(id);
    var r := Improve(s, Upper(id), v, p);
    StepKeepsCapacity(s, Upper(id), v, p, match r case Success(u) => u.store case Failure(_) => s);
    r
  }

  /** With the corrected key, a second capture of any spelling of the id finds the first. */
  lemma ImproveByKeyFindsStored(s: Store, id: string, id2: string, v: Vector, w: Vector, p: Policy)
    requires Count(s, Upper(id)) == 0 && Upper(id2) == Upper(id)
    ensures ImproveByKey(s, id, v, p).Success?
    ensures var r := ImproveByKey(ImproveByKey(s, id, v, p).value.store, id2, w, p);
            r.Success? ==> r.value.outcome != AddedInitial
  {
  }
}
