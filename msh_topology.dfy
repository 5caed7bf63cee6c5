/**
 * Boundary relations inferred from shared unique vertices when the MSH
 * file does not list them (`build_topology`): for every unique vertex, the
 * boundary-type components and the incident-type components that have a
 * vertex there. A first pass over all unique vertices collects every
 * co-occurring pair (`add_potential_relationships`); a second pass keeps a
 * pair only if the incident component is present at every unique vertex of
 * the boundary (`filter_potential_relationships`).
 */
module MshTopology {
  import opened BRepModel

  /** Candidate relations: boundary component -> incident components. */
  type Relations = map<nat, set<nat>>

  function Elems(s: seq<nat>): set<nat>
  {
    set x | x in s
  }

  function Get(rel: Relations, b: nat): set<nat>
  {
    if b in rel then rel[b] else {}
  }

  /**
   * `mesh_component_vertices(uv, type)` reduced to the components: the
   * positions of the components of `cs` with a local vertex on `uv`.
   */
  function ComponentsAt(cs: seq<Component>, uv: nat): (r: seq<nat>)
    ensures forall i :: i in r <==> 0 <= i < |cs| && uv in cs[i].uniqueOf
    decreases |cs|
  {
    if cs == [] then []
    else
      var r := ComponentsAt(cs[..|cs| - 1], uv);
      if uv in cs[|cs| - 1].uniqueOf then r + [|cs| - 1] else r
  }

  /**
   * `add_potential_relationships` at one unique vertex: every boundary
   * component present gains every incident component present; the entry of
   * a boundary is created only when some incident component is present.
   */
  method AddPotentialRelationships(bs: seq<nat>, ins: seq<nat>, rel: Relations) returns (rel': Relations)
    ensures forall b :: b in rel' <==> b in rel || (b in bs && |ins| > 0)
    ensures forall b | b in rel' :: rel'[b] == Get(rel, b) + (if b in bs then Elems(ins) else {})
  {
    rel' := rel;
    var k := 0;
    while k < |bs|
      invariant k <= |bs|
      invariant forall x :: x in rel' <==> x in rel || (x in bs[..k] && |ins| > 0)
      invariant forall x :: Get(rel', x) == Get(rel, x) + (if x in bs[..k] then Elems(ins) else {})
    {
      assert bs[..k + 1] == bs[..k] + [bs[k]];
      rel' := AddIncidences(rel', bs[k], ins);
      k := k + 1;
    }
    assert bs[..|bs|] == bs;
    forall x | x in rel'
      ensures rel'[x] == Get(rel, x) + (if x in bs then Elems(ins) else {})
    {
      assert rel'[x] == Get(rel', x);
    }
  }

  /** The inner loop for one boundary component `b`: it gains every incident component of `ins`. */
  method AddIncidences(rel: Relations, b: nat, ins: seq<nat>) returns (rel': Relations)
    ensures forall x :: x in rel' <==> x in rel || (x == b && |ins| > 0)
    ensures forall x :: Get(rel', x) == Get(rel, x) + (if x == b then Elems(ins) else {})
  {
    rel' := rel;
    var j := 0;
    while j < |ins|
      invariant j <= |ins|
      invariant forall x :: x in rel' <==> x in rel || (x == b && j > 0)
      invariant forall x :: Get(rel', x) == Get(rel, x) + (if x == b then Elems(ins[..j]) else {})
    {
      assert Elems(ins[..j + 1]) == Elems(ins[..j]) + {ins[j]} by {
        assert ins[..j + 1] == ins[..j] + [ins[j]];
      }
      rel' := rel'[b := Get(rel', b) + {ins[j]}];
      j := j + 1;
    }
    assert ins[..|ins|] == ins;
  }

  /**
   * `filter_potential_relationships` at one unique vertex: for every
   * boundary component present that already has an entry, the incident
   * components absent at this unique vertex are erased.
   */
  method FilterPotentialRelationships(bs: seq<nat>, ins: seq<nat>, rel: Relations) returns (rel': Relations)
    ensures rel'.Keys == rel.Keys
    ensures forall b | b in rel' :: rel'[b] == if b in bs then rel[b] * Elems(ins) else rel[b]
  {
    rel' := rel;
    var k := 0;
    while k < |bs|
      invariant k <= |bs|
      invariant rel'.Keys == rel.Keys
      invariant forall b | b in rel' :: rel'[b] == if b in bs[..k] then rel[b] * Elems(ins) else rel[b]
    {
      var b := bs[k];
      if b in rel' {
        var kept := KeepPresent(rel'[b], ins);
        rel' := rel'[b := kept];
      }
      assert bs[..k + 1] == bs[..k] + [b];
      k := k + 1;
    }
    assert bs[..|bs|] == bs;
  }

  /** The inner loop for one boundary component: every incident component absent from `ins` is erased. */
  method KeepPresent(incidences: set<nat>, ins: seq<nat>) returns (kept: set<nat>)
    ensures kept == incidences * Elems(ins)
  {
    kept := {};
    var remaining := incidences;
    while remaining != {}
      invariant remaining <= incidences
      invariant kept == (incidences - remaining) * Elems(ins)
      decreases |remaining|
    {
      var i :| i in remaining;
      if i in ins {
        kept := kept + {i};
      }
      remaining := remaining - {i};
    }
  }

  // ---------------------------------------------------------------------
  // The two passes over all unique vertices
  // ---------------------------------------------------------------------

  /** Incident components seen together with `b` at the first `n` unique vertices. */
  function Reach(bs: seq<seq<nat>>, ins: seq<seq<nat>>, b: nat, n: nat): set<nat>
    requires n <= |bs| && n <= |ins|
  {
    if n == 0 then {}
    else Reach(bs, ins, b, n - 1) + (if b in bs[n - 1] then Elems(ins[n - 1]) else {})
  }

  /** Whether `b` meets some incident component at one of the first `n` unique vertices. */
  predicate Seen(bs: seq<seq<nat>>, ins: seq<seq<nat>>, b: nat, n: nat)
    requires n <= |bs| && n <= |ins|
  {
    exists u | 0 <= u < n :: b in bs[u] && |ins[u]| > 0
  }

  lemma {:induction false} ReachMeaning(bs: seq<seq<nat>>, ins: seq<seq<nat>>, b: nat, n: nat, i: nat)
    requires n <= |bs| && n <= |ins|
    ensures i in Reach(bs, ins, b, n) <==> exists u | 0 <= u < n :: b in bs[u] && i in ins[u]
  {
    if n > 0 {
      ReachMeaning(bs, ins, b, n - 1, i);
    }
  }

  /** The first pass, over the unique vertices 0 .. n-1 in order. */
  method AddPass(bs: seq<seq<nat>>, ins: seq<seq<nat>>) returns (rel: Relations)
    requires |bs| == |ins|
    ensures forall b :: b in rel <==> Seen(bs, ins, b, |bs|)
    ensures forall b | b in rel :: rel[b] == Reach(bs, ins, b, |bs|)
  {
    rel := map[];
    var uv := 0;
    while uv < |bs|
      invariant uv <= |bs|
      invariant forall b :: b in rel <==> Seen(bs, ins, b, uv)
      invariant forall b | b in rel :: rel[b] == Reach(bs, ins, b, uv)
    {
      forall b | b !in rel
        ensures Reach(bs, ins, b, uv) == {}
      {
        ReachEmpty(bs, ins, b, uv);
      }
      rel := AddPotentialRelationships(bs[uv], ins[uv], rel);
      SeenStep(bs, ins, uv);
      uv := uv + 1;
    }
  }

  lemma SeenStep(bs: seq<seq<nat>>, ins: seq<seq<nat>>, uv: nat)
    requires uv < |bs| && uv < |ins|
    ensures forall b :: Seen(bs, ins, b, uv + 1) <==> Seen(bs, ins, b, uv) || (b in bs[uv] && |ins[uv]| > 0)
  {
    forall b
      ensures Seen(bs, ins, b, uv + 1) <==> Seen(bs, ins, b, uv) || (b in bs[uv] && |ins[uv]| > 0)
    {
      if Seen(bs, ins, b, uv + 1) && !(b in bs[uv] && |ins[uv]| > 0) {
        var u :| 0 <= u < uv + 1 && b in bs[u] && |ins[u]| > 0;
        assert u < uv;
      }
    }
  }

  lemma ReachEmpty(bs: seq<seq<nat>>, ins: seq<seq<nat>>, b: nat, n: nat)
    requires n <= |bs| && n <= |ins|
    requires !Seen(bs, ins, b, n)
    ensures Reach(bs, ins, b, n) == {}
  {
    forall i | i in Reach(bs, ins, b, n)
      ensures false
    {
      ReachMeaning(bs, ins, b, n, i);
    }
  }

  /** The incident components of `s` present at every one of the first `n` unique vertices where `b` ins. */
  function Survivors(bs: seq<seq<nat>>, ins: seq<seq<nat>>, b: nat, s: set<nat>, n: nat): set<nat>
    requires n <= |bs| && n <= |ins|
  {
    set i | i in s && forall u | 0 <= u < n :: b in bs[u] ==> i in ins[u]
  }

  /** The second pass, over the unique vertices 0 .. n-1 in order. */
  method FilterPass(bs: seq<seq<nat>>, ins: seq<seq<nat>>, rel0: Relations) returns (rel: Relations)
    requires |bs| == |ins|
    ensures rel.Keys == rel0.Keys
    ensures forall b | b in rel :: rel[b] == Survivors(bs, ins, b, rel0[b], |bs|)
  {
    rel := rel0;
    var uv := 0;
    while uv < |bs|
      invariant uv <= |bs|
      invariant rel.Keys == rel0.Keys
      invariant forall b | b in rel :: rel[b] == Survivors(bs, ins, b, rel0[b], uv)
    {
      var before := rel;
      rel := FilterPotentialRelationships(bs[uv], ins[uv], rel);
      forall b | b in rel
        ensures rel[b] == Survivors(bs, ins, b, rel0[b], uv + 1)
      {
        assert before[b] == Survivors(bs, ins, b, rel0[b], uv);
      }
      uv := uv + 1;
    }
  }

  /**
   * The relation rule: b -> i is inferred iff b and i share some unique
   * vertex, and i is present at every unique vertex where b is.
   */
  predicate Inferred(bs: seq<seq<nat>>, ins: seq<seq<nat>>, b: nat, i: nat)
    requires |bs| == |ins|
  {
    && (exists u | 0 <= u < |bs| :: b in bs[u] && i in ins[u])
    && (forall u | 0 <= u < |bs| :: b in bs[u] ==> i in ins[u])
  }

  /**
   * Both passes: `rel` holds b -> i exactly when the relation rule infers
   * it.
   */
  method InferRelations(bs: seq<seq<nat>>, ins: seq<seq<nat>>) returns (rel: Relations)
    requires |bs| == |ins|
    ensures forall b, i :: (b in rel && i in rel[b]) <==> Inferred(bs, ins, b, i)
  {
    var added := AddPass(bs, ins);
    rel := FilterPass(bs, ins, added);
    forall b, i
      ensures (b in rel && i in rel[b]) <==> Inferred(bs, ins, b, i)
    {
      ReachMeaning(bs, ins, b, |bs|, i);
      if Inferred(bs, ins, b, i) {
        var u :| 0 <= u < |bs| && b in bs[u] && i in ins[u];
        assert |ins[u]| > 0;
        assert Seen(bs, ins, b, |bs|);
      }
    }
  }

  /** The relations as (boundary, incident) component pairs of the given types. */
  function RelationPairs(rel: Relations, bt: ComponentType, it: ComponentType): (r: set<Relation>)
    ensures forall b, i :: (ComponentId(bt, b), ComponentId(it, i)) in r <==> b in rel && i in rel[b]
  {
    set b, i | b in rel && i in rel[b] :: (ComponentId(bt, b), ComponentId(it, i))
  }

  // ---------------------------------------------------------------------
  // build_topology for one pair of component types
  // ---------------------------------------------------------------------

  /** The components of `cs` present at each unique vertex 0 .. n-1. */
  function Presence(cs: seq<Component>, n: nat): seq<seq<nat>>
  {
    seq(n, uv requires 0 <= uv < n => ComponentsAt(cs, uv))
  }

  /** The components of `cs` present at each unique vertex, one unique vertex after the other. */
  method PresenceTable(cs: seq<Component>, n: nat) returns (t: seq<seq<nat>>)
    ensures t == Presence(cs, n)
  {
    t := [];
    var uv := 0;
    while uv < n
      invariant uv <= n && |t| == uv
      invariant forall u | 0 <= u < uv :: t[u] == ComponentsAt(cs, u)
    {
      t := t + [ComponentsAt(cs, uv)];
      uv := uv + 1;
    }
  }

  /**
   * The boundary relations between the components of type `bt` and those
   * of type `it` that the relation rule infers over the unique vertices of
   * `b`.
   */
  function InferredPairs(b: BRep, bt: ComponentType, it: ComponentType): set<Relation>
  {
    var bs := Presence(Components(b, bt), b.nbUniqueVertices);
    var ins := Presence(Components(b, it), b.nbUniqueVertices);
    set x, y | 0 <= x < |Components(b, bt)| && 0 <= y < |Components(b, it)| && Inferred(bs, ins, x, y)
      :: (ComponentId(bt, x), ComponentId(it, y))
  }

  /**
   * A boundary relation is inferred iff the two components share a unique
   * vertex and the incident one is present at every unique vertex of the
   * boundary one.
   */
  lemma InferredPairsMeaning(b: BRep, bt: ComponentType, it: ComponentType, x: nat, y: nat)
    ensures (ComponentId(bt, x), ComponentId(it, y)) in InferredPairs(b, bt, it) <==>
      && x < |Components(b, bt)| && y < |Components(b, it)|
      && (exists uv | 0 <= uv < b.nbUniqueVertices ::
            uv in Components(b, bt)[x].uniqueOf && uv in Components(b, it)[y].uniqueOf)
      && (forall uv | 0 <= uv < b.nbUniqueVertices ::
            uv in Components(b, bt)[x].uniqueOf ==> uv in Components(b, it)[y].uniqueOf)
  {
    var n := b.nbUniqueVertices;
    var bs := Presence(Components(b, bt), n);
    var ins := Presence(Components(b, it), n);
    if x < |Components(b, bt)| && y < |Components(b, it)| {
      forall uv | 0 <= uv < n
        ensures x in bs[uv] <==> uv in Components(b, bt)[x].uniqueOf
        ensures y in ins[uv] <==> uv in Components(b, it)[y].uniqueOf
      {
        PresenceAt(Components(b, bt), n, uv, x);
        PresenceAt(Components(b, it), n, uv, y);
      }
      assert (ComponentId(bt, x), ComponentId(it, y)) in InferredPairs(b, bt, it) <==> Inferred(bs, ins, x, y);
    }
  }

  lemma PresenceAt(cs: seq<Component>, n: nat, uv: nat, x: nat)
    requires uv < n
    ensures x in Presence(cs, n)[uv] <==> x < |cs| && uv in cs[x].uniqueOf
  {
  }

  /** `add_potential_relationships` then `filter_potential_relationships` over every unique vertex of `b`. */
  method InferPairs(b: BRep, bt: ComponentType, it: ComponentType) returns (r: set<Relation>)
    ensures r == InferredPairs(b, bt, it)
  {
    var bs := PresenceTable(Components(b, bt), b.nbUniqueVertices);
    var ins := PresenceTable(Components(b, it), b.nbUniqueVertices);
    var rel := InferRelations(bs, ins);
    r := RelationPairs(rel, bt, it);
    PairsOfInferred(b, bt, it, rel);
  }

  /** A relation map that holds exactly the inferred relations gives exactly `InferredPairs`. */
  lemma PairsOfInferred(b: BRep, bt: ComponentType, it: ComponentType, rel: Relations)
    requires var bs := Presence(Components(b, bt), b.nbUniqueVertices);
      var ins := Presence(Components(b, it), b.nbUniqueVertices);
      forall x, y :: (x in rel && y in rel[x]) <==> Inferred(bs, ins, x, y)
    ensures RelationPairs(rel, bt, it) == InferredPairs(b, bt, it)
  {
    var bs := Presence(Components(b, bt), b.nbUniqueVertices);
    var ins := Presence(Components(b, it), b.nbUniqueVertices);
    forall p | p in RelationPairs(rel, bt, it)
      ensures p in InferredPairs(b, bt, it)
    {
      var x, y := p.0.index, p.1.index;
      assert Inferred(bs, ins, x, y);
      var u :| 0 <= u < |bs| && x in bs[u] && y in ins[u];
      PresenceAt(Components(b, bt), b.nbUniqueVertices, u, x);
      PresenceAt(Components(b, it), b.nbUniqueVertices, u, y);
    }
  }

  /** `build_topology`: the inferred corner-line, line-surface and surface-block relations. */
  function Topology(b: BRep): set<Relation>
  {
    InferredPairs(b, Corner, Line) + InferredPairs(b, Line, Surface) + InferredPairs(b, Surface, Block)
  }

  /** Every inferred relation links two components of the model. */
  lemma TopologyValid(b: BRep)
    ensures RelationsValid(b) ==> RelationsValid(b.(boundaries := b.boundaries + Topology(b)))
  {
    var b' := b.(boundaries := b.boundaries + Topology(b));
    assert forall t :: Components(b', t) == Components(b, t);
  }

  /** Components linked to the same unique vertices, each in the same list position. */
  ghost predicate SamePresence(cs: seq<Component>, ds: seq<Component>)
  {
    |cs| == |ds| && forall i | 0 <= i < |cs| :: forall uv :: uv in cs[i].uniqueOf <==> uv in ds[i].uniqueOf
  }

  lemma {:induction false} ComponentsAtSame(cs: seq<Component>, ds: seq<Component>, uv: nat)
    requires SamePresence(cs, ds)
    ensures ComponentsAt(cs, uv) == ComponentsAt(ds, uv)
    decreases |cs|
  {
    if cs != [] {
      ComponentsAtSame(cs[..|cs| - 1], ds[..|ds| - 1], uv);
    }
  }

  /**
   * Inference looks only at which unique vertices each component reaches:
   * models that agree on that infer the same relations.
   */
  lemma TopologySame(b: BRep, b': BRep)
    requires b.nbUniqueVertices == b'.nbUniqueVertices
    requires SamePresence(b.corners, b'.corners) && SamePresence(b.lines, b'.lines)
    requires SamePresence(b.surfaces, b'.surfaces) && SamePresence(b.blocks, b'.blocks)
    ensures Topology(b) == Topology(b')
  {
    forall t, uv | 0 <= uv < b.nbUniqueVertices
      ensures ComponentsAt(Components(b, t), uv) == ComponentsAt(Components(b', t), uv)
    {
      assert SamePresence(Components(b, t), Components(b', t)) by {
        match t
        case Corner =>
        case Line =>
        case Surface =>
        case Block =>
      }
      ComponentsAtSame(Components(b, t), Components(b', t), uv);
    }
    forall t
      ensures Presence(Components(b, t), b.nbUniqueVertices) == Presence(Components(b', t), b.nbUniqueVertices)
    {
    }
  }
}
