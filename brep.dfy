/**
 * The boundary representation the model readers fill, reduced to what the
 * adapters touch: four kinds of mesh component, each a list of local
 * vertices with the unique vertex every local vertex is linked to, and its
 * cells as lists of local vertices; the number of unique vertices; and the
 * set of boundary relations. Component identifiers are positions in the
 * component lists (the uuid is abstracted away) and the iteration order of
 * `corners()`, `lines()`, `surfaces()` and `blocks()` is list order.
 * Coordinates are not part of this value.
 */
module BRepModel {
  /** Corner3D, Line3D, Surface3D and Block3D component types. */
  datatype ComponentType = Corner | Line | Surface | Block

  datatype ComponentId = ComponentId(kind: ComponentType, index: nat)

  /**
   * A cell of a component mesh: its local vertices and, for a polyhedron,
   * its faces as lists of positions in `vertices`.
   */
  datatype Cell = Cell(vertices: seq<nat>, faces: seq<seq<nat>>)

  /** `uniqueOf[v]` is the unique vertex that local vertex `v` is linked to. */
  datatype Component = Component(uniqueOf: seq<nat>, cells: seq<Cell>)

  /** A boundary relation: (boundary component, incident component). */
  type Relation = (ComponentId, ComponentId)

  datatype BRep = BRep(
    corners: seq<Component>,
    lines: seq<Component>,
    surfaces: seq<Component>,
    blocks: seq<Component>,
    nbUniqueVertices: nat,
    boundaries: set<Relation>)

  const EmptyComponent := Component([], [])

  const EmptyBRep := BRep([], [], [], [], 0, {})

  function Components(b: BRep, t: ComponentType): seq<Component>
  {
    match t
    case Corner => b.corners
    case Line => b.lines
    case Surface => b.surfaces
    case Block => b.blocks
  }

  /** `b` with the components of type `t` replaced and everything else kept. */
  function WithComponents(b: BRep, t: ComponentType, cs: seq<Component>): (r: BRep)
    ensures Components(r, t) == cs
    ensures forall u | u != t :: Components(r, u) == Components(b, u)
    ensures r.nbUniqueVertices == b.nbUniqueVertices && r.boundaries == b.boundaries
  {
    match t
    case Corner => b.(corners := cs)
    case Line => b.(lines := cs)
    case Surface => b.(surfaces := cs)
    case Block => b.(blocks := cs)
  }

  /** Every cell of `c` refers only to local vertices of `c`. */
  predicate WellFormed(c: Component)
  {
    forall i, k | 0 <= i < |c.cells| && 0 <= k < |c.cells[i].vertices| ::
      c.cells[i].vertices[k] < |c.uniqueOf|
  }

  /** Every component of the model is well formed. */
  predicate AllWellFormed(b: BRep)
  {
    forall t, i | 0 <= i < |Components(b, t)| :: WellFormed(Components(b, t)[i])
  }

  /** Adding an empty component, or changing the relations, keeps every component well formed. */
  lemma AddEmptyWellFormed(b: BRep, t: ComponentType, rs: set<Relation>)
    ensures AllWellFormed(b) ==> AllWellFormed(WithComponents(b, t, Components(b, t) + [EmptyComponent]).(boundaries := rs))
  {
    if !AllWellFormed(b) {
      return;
    }
    var b' := WithComponents(b, t, Components(b, t) + [EmptyComponent]).(boundaries := rs);
    forall u, i | 0 <= i < |Components(b', u)|
      ensures WellFormed(Components(b', u)[i])
    {
      if u == t && i == |Components(b, t)| {
        assert Components(b', u)[i] == EmptyComponent;
      } else {
        assert Components(b', u)[i] == Components(b, u)[i];
      }
    }
  }

  /** Every boundary relation links two components that exist. */
  predicate RelationsValid(b: BRep)
  {
    forall r | r in b.boundaries :: r.0.index < |Components(b, r.0.kind)| && r.1.index < |Components(b, r.1.kind)|
  }

  /** Components are only ever added: relations between existing components stay valid. */
  lemma GrowthKeepsRelations(b: BRep, b': BRep)
    requires RelationsValid(b) && b'.boundaries == b.boundaries
    requires forall t :: |Components(b', t)| >= |Components(b, t)|
    ensures RelationsValid(b')
  {
  }

  /** Each index smaller than the next: the order of a component listing. */
  predicate Increasing(xs: seq<nat>)
  {
    forall a, c | 0 <= a < c < |xs| :: xs[a] < xs[c]
  }

  /** The unique vertices a component's cells reach. */
  function CellUniqueVertices(c: Component, i: nat): seq<nat>
    requires WellFormed(c) && i < |c.cells|
  {
    seq(|c.cells[i].vertices|, k requires 0 <= k < |c.cells[i].vertices| =>
      c.uniqueOf[c.cells[i].vertices[k]])
  }
}
