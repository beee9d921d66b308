/**
 * The `face_embeddings` collection as an in-memory sequence of templates.
 *
 * Each template belongs to a client and carries a handle, the row id or
 * document `_id` the store assigned on insertion; updates address a
 * template by handle. Fetching a client's templates keeps store order.
 */
module TemplateStore {
  import opened VectorMath

  datatype Template = Template(owner: string, handle: nat, vector: Vector)

  datatype Store = Store(templates: seq<Template>, nextHandle: nat)

  /** Handles are distinct, and all below the next one to be handed out. */
  ghost predicate WellFormed(s: Store) {
    && (forall i, j :: 0 <= i < j < |s.templates| ==> s.templates[i].handle != s.templates[j].handle)
    && (forall i :: 0 <= i < |s.templates| ==> s.templates[i].handle < s.nextHandle)
  }

  /** A client's templates, in store order (`WHERE client_id = ...`). */
  function Owned(ts: seq<Template>, id: string): (r: seq<Template>)
    decreases |ts|
    ensures |r| <= |ts|
    ensures forall k :: 0 <= k < |r| ==> r[k].owner == id && r[k] in ts
    ensures forall i :: 0 <= i < |ts| && ts[i].owner == id ==> ts[i] in r
  {
    if |ts| == 0 then []
    else
      var prefix := Owned(ts[..|ts| - 1], id);
      assert forall i :: 0 <= i < |ts| - 1 ==> ts[i] == ts[..|ts| - 1][i];
      if ts[|ts| - 1].owner == id then prefix + [ts[|ts| - 1]] else prefix
  }

  function Count(s: Store, id: string): nat {
    |Owned(s.templates, id)|
  }

  /** Insert a template for `id` under a fresh handle. */
  function Add(s: Store, id: string, v: Vector): (r: Store)
    ensures WellFormed(s) ==> WellFormed(r)
    ensures Owned(r.templates, id) == Owned(s.templates, id) + [Template(id, s.nextHandle, v)]
    ensures forall other :: other != id ==> Owned(r.templates, other) == Owned(s.templates, other)
    ensures Count(r, id) == Count(s, id) + 1
  {
    var ts := s.templates + [Template(id, s.nextHandle, v)];
    assert ts[..|ts| - 1] == s.templates;
    Store(ts, s.nextHandle + 1)
  }

  /** The template with handle `h` takes vector `v`; any other is left alone. */
  function Retarget(t: Template, h: nat, v: Vector): (r: Template)
    ensures r.owner == t.owner && r.handle == t.handle
    ensures r.vector == (if t.handle == h then v else t.vector)
  {
    if t.handle == h then t.(vector := v) else t
  }

  function RetargetAll(ts: seq<Template>, h: nat, v: Vector): (r: seq<Template>)
    ensures |r| == |ts| && forall i :: 0 <= i < |ts| ==> r[i] == Retarget(ts[i], h, v)
  {
    seq(|ts|, i requires 0 <= i < |ts| => Retarget(ts[i], h, v))
  }

  /** `UPDATE ... SET embedding_json = v WHERE id = h`. */
  function SetVector(s: Store, h: nat, v: Vector): (r: Store)
    ensures WellFormed(s) ==> WellFormed(r)
    ensures r.nextHandle == s.nextHandle && |r.templates| == |s.templates|
    ensures forall i :: 0 <= i < |s.templates| ==>
              && r.templates[i].owner == s.templates[i].owner
              && r.templates[i].handle == s.templates[i].handle
              && (s.templates[i].handle != h ==> r.templates[i] == s.templates[i])
              && (s.templates[i].handle == h ==> r.templates[i].vector == v)
  {
    Store(RetargetAll(s.templates, h, v), s.nextHandle)
  }

  /**
   * Seen through one client's eyes, an update by handle keeps the same
   * templates in the same order and changes only the addressed one.
   */
  lemma {:induction false} OwnedRetarget(ts: seq<Template>, id: string, h: nat, v: Vector)
    decreases |ts|
    ensures Owned(RetargetAll(ts, h, v), id) == RetargetAll(Owned(ts, id), h, v)
  {
    if |ts| > 0 {
      var init := ts[..|ts| - 1];
      var us := RetargetAll(ts, h, v);
      assert us[..|us| - 1] == RetargetAll(init, h, v);
      OwnedRetarget(init, id, h, v);
    }
  }

  /** An update by handle leaves every client's template count as it was. */
  lemma SetVectorCounts(s: Store, h: nat, v: Vector, id: string)
    ensures Count(SetVector(s, h, v), id) == Count(s, id)
    ensures Owned(SetVector(s, h, v).templates, id) == RetargetAll(Owned(s.templates, id), h, v)
  {
    OwnedRetarget(s.templates, id, h, v);
  }

  /** Handles of one client's templates are distinct when the store's are. */
  lemma {:induction false} OwnedHandlesDistinct(ts: seq<Template>, id: string)
    decreases |ts|
    requires forall i, j :: 0 <= i < j < |ts| ==> ts[i].handle != ts[j].handle
    ensures forall i, j :: 0 <= i < j < |Owned(ts, id)| ==> Owned(ts, id)[i].handle != Owned(ts, id)[j].handle
  {
    if |ts| > 0 {
      var init := ts[..|ts| - 1];
      OwnedHandlesDistinct(init, id);
      var p := Owned(init, id);
      assert forall i, j :: 0 <= i < j < |p| ==> p[i].handle != p[j].handle;
      forall k | 0 <= k < |p|
        ensures p[k].handle != ts[|ts| - 1].handle
      {
        var i :| 0 <= i < |init| && init[i] == p[k];
        assert init[i] == ts[i];
      }
      var r := Owned(ts, id);
      if r != p {
        assert r == p + [ts[|ts| - 1]];
        forall i, j | 0 <= i < j < |r|
          ensures r[i].handle != r[j].handle
        {
          if j < |p| {
            assert r[i] == p[i] && r[j] == p[j];
          } else {
            assert r[i] == p[i] && r[j] == ts[|ts| - 1];
            assert p[i].handle != ts[|ts| - 1].handle;
          }
        }
      }
    }
  }
}
