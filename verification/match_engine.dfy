/**
 * Global nearest-neighbour matching of a captured vector against every
 * stored template.
 *
 * The scan visits candidates in store order and replaces the best so far
 * only on a strictly smaller distance, so among candidates at equal minimal
 * distance the first one visited wins. A candidate without a usable vector
 * (it did not decode, or its length differs from the query's) is skipped.
 */
module MatchEngine {
  import opened Wrappers
  import opened VectorMath

  /** One stored template as the scan sees it: its owner and decoded vector. */
  datatype Candidate = Candidate(owner: string, vector: Option<Vector>)

  /** The best candidate so far: its position, owner and squared distance. */
  datatype Best = Best(index: nat, owner: string, sqDist: real)

  /** `(id, d)` or `(None, None)`; the distance is reported squared. */
  datatype MatchResult = NoMatch | Match(id: string, sqDist: real)

  predicate Usable(q: Vector, c: Candidate) {
    c.vector.Some? && |c.vector.value| == |q|
  }

  function Dist(q: Vector, c: Candidate): real
    requires Usable(q, c)
  {
    SqDist(c.vector.value, q)
  }

  /**
   * `i` is where the scan settles: a usable candidate no farther than any
   * usable candidate, and strictly closer than every usable one before it.
   */
  ghost predicate IsFirstClosest(q: Vector, cs: seq<Candidate>, i: int) {
    && 0 <= i < |cs|
    && Usable(q, cs[i])
    && (forall j :: 0 <= j < |cs| && Usable(q, cs[j]) ==> Dist(q, cs[i]) <= Dist(q, cs[j]))
    && (forall j :: 0 <= j < i && Usable(q, cs[j]) ==> Dist(q, cs[i]) < Dist(q, cs[j]))
  }

  /** At most one position is the first closest. */
  lemma FirstClosestUnique(q: Vector, cs: seq<Candidate>, i: int, k: int)
    requires IsFirstClosest(q, cs, i) && IsFirstClosest(q, cs, k)
    ensures i == k
  {
    if i < k || k < i {
      assert false;
    }
  }

  /**
   * The scan loop as a left fold: the best over `cs` is the best over all
   * but the last candidate, replaced by the last one only when it is usable
   * and strictly closer.
   */
  function Scan(q: Vector, cs: seq<Candidate>): (r: Option<Best>)
    decreases |cs|
    ensures r.None? <==> forall j :: 0 <= j < |cs| ==> !Usable(q, cs[j])
    ensures r.Some? ==> && IsFirstClosest(q, cs, r.value.index)
                        && r.value.owner == cs[r.value.index].owner
                        && r.value.sqDist == Dist(q, cs[r.value.index])
  {
    if |cs| == 0 then None
    else
      var prefix := cs[..|cs| - 1];
      var last := cs[|cs| - 1];
      var prev := Scan(q, prefix);
      assert forall j :: 0 <= j < |prefix| ==> prefix[j] == cs[j];
      if Usable(q, last) && (prev.None? || Dist(q, last) < prev.value.sqDist) then
        Some(Best(|cs| - 1, last.owner, Dist(q, last)))
      else
        prev
  }

  /** The threshold gate applied to the best candidate. */
  function Decide(best: Option<Best>, threshold: real): MatchResult {
    if best.Some? && AtMost(best.value.sqDist, threshold) then
      Match(best.value.owner, best.value.sqDist)
    else
      NoMatch
  }

  /**
   * Match the query against every candidate: the owner of the first closest
   * usable candidate, if that distance is within the threshold.
   */
  function FindBestMatch(q: Vector, cs: seq<Candidate>, threshold: real): (r: MatchResult)
    ensures r.Match? ==> AtMost(r.sqDist, threshold)
    ensures r.Match? ==> exists i :: && IsFirstClosest(q, cs, i)
                                     && cs[i].owner == r.id
                                     && Dist(q, cs[i]) == r.sqDist
    ensures r.NoMatch? <==> forall j :: 0 <= j < |cs| && Usable(q, cs[j]) ==> !AtMost(Dist(q, cs[j]), threshold)
  {
    var best := Scan(q, cs);
    if best.Some? then
      BestGatesAll(q, cs, best.value.index, threshold);
      Decide(best, threshold)
    else
      Decide(best, threshold)
  }

  /** If the closest usable candidate fails the threshold, every usable one does. */
  lemma BestGatesAll(q: Vector, cs: seq<Candidate>, i: int, threshold: real)
    requires IsFirstClosest(q, cs, i)
    ensures !AtMost(Dist(q, cs[i]), threshold) ==>
              forall j :: 0 <= j < |cs| && Usable(q, cs[j]) ==> !AtMost(Dist(q, cs[j]), threshold)
  {
    forall j | 0 <= j < |cs| && Usable(q, cs[j]) && AtMost(Dist(q, cs[j]), threshold)
      ensures AtMost(Dist(q, cs[i]), threshold)
    {
      AtMostMonotone(Dist(q, cs[i]), Dist(q, cs[j]), threshold);
    }
  }

  /** A smaller squared distance passes every threshold a larger one passes. */
  lemma AtMostMonotone(d2: real, e2: real, t: real)
    requires d2 <= e2 && AtMost(e2, t)
    ensures AtMost(d2, t)
  {
  }

  /**
   * The scan as the source writes it: `best_id` and `best_distance` start
   * empty, and a usable row replaces them when no best exists yet or its
   * distance is strictly smaller.
   */
  method ScanLoop(q: Vector, cs: seq<Candidate>, threshold: real) returns (id: Option<string>, dist: Option<real>)
    ensures id.Some? <==> dist.Some?
    ensures id.Some? ==> FindBestMatch(q, cs, threshold) == Match(id.value, dist.value)
    ensures id.None? ==> FindBestMatch(q, cs, threshold) == NoMatch
  {
    var bestId: Option<string> := None;
    var bestDistance: Option<real> := None;
    var n := 0;
    while n < |cs|
      invariant 0 <= n <= |cs|
      invariant bestId.Some? <==> bestDistance.Some?
      invariant Scan(q, cs[..n]).None? <==> bestId.None?
      invariant Scan(q, cs[..n]).Some? ==> && bestId.value == Scan(q, cs[..n]).value.owner
                                           && bestDistance.value == Scan(q, cs[..n]).value.sqDist
    {
      var r := cs[n];
      assert cs[..n + 1][..n] == cs[..n];
      if Usable(q, r) {
        var d := SqDist(r.vector.value, q);
        if bestDistance.None? || d < bestDistance.value {
          bestDistance := Some(d);
          bestId := Some(r.owner);
        }
      }
      n := n + 1;
    }
    assert cs[..n] == cs;
    if bestDistance.Some? && AtMost(bestDistance.value, threshold) {
      id, dist := bestId, bestDistance;
    } else {
      id, dist := None, None;
    }
  }

  /**
   * Querying with a stored vector: the result is a match at distance zero,
   * owned by the first candidate at distance zero from the query, for every
   * non-negative threshold.
   */
  lemma ExactMatch(q: Vector, cs: seq<Candidate>, k: int, threshold: real)
    requires 0 <= k < |cs| && cs[k].vector == Some(q)
    requires forall j :: 0 <= j < k && Usable(q, cs[j]) ==> Dist(q, cs[j]) != 0.0
    requires 0.0 <= threshold
    ensures FindBestMatch(q, cs, threshold) == Match(cs[k].owner, 0.0)
  {
    SqDistSelf(q);
    var best := Scan(q, cs);
    assert Usable(q, cs[k]);
    var i := best.value.index;
    assert Dist(q, cs[i]) <= Dist(q, cs[k]) == 0.0;
    if i != k {
      assert false;
    }
  }
}
