/**
 * Gmsh elements as the MSH readers build them: the element-code table, the
 * vertex counts and polyhedron face tables, the reading of an element's
 * node ids, and `add_element`, which finds or creates the component an
 * element belongs to and appends the element to it.
 */
module MshCommon {
  import opened Wrappers
  import opened Text
  import opened BRepModel
  import opened Streams

  /** Gmsh numbers nodes, elements and entities from 1. */
  const GMSH_OFFSET_START: nat := 1

  /** The lines that open and close the sections of an MSH file. */
  const MESH_FORMAT := "$MeshFormat"
  const END_MESH_FORMAT := "$EndMeshFormat"
  const ENTITIES := "$Entities"
  const END_ENTITIES := "$EndEntities"
  const NODES := "$Nodes"
  const END_NODES := "$EndNodes"
  const ELEMENTS := "$Elements"
  const END_ELEMENTS := "$EndElements"
  /** Every closing line starts with this. */
  const END_PREFIX := "$End"

  /** A (component type, Gmsh tag) key of the elementary-id map. */
  datatype GmshElementID = GmshElementID(kind: ComponentType, id: nat)

  /** The map from (component type, elementary tag) to component. */
  type IdMap = map<GmshElementID, nat>

  lemma GmshElementIDEquality(a: GmshElementID, b: GmshElementID)
    ensures a == b <==> a.kind == b.kind && a.id == b.id
  {
  }

  datatype ElementKind =
    | Point | Edge | Triangle | Quadrangle
    | Tetrahedron | Hexahedron | Prism | Pyramid

  /** The element factory: the Gmsh element-type code each kind is registered under. */
  function ElementOfCode(code: nat): (r: Option<ElementKind>)
    ensures r.Some? <==> code in {1, 2, 3, 4, 5, 6, 7, 15}
  {
    if code == 15 then Some(Point)
    else if code == 1 then Some(Edge)
    else if code == 2 then Some(Triangle)
    else if code == 3 then Some(Quadrangle)
    else if code == 4 then Some(Tetrahedron)
    else if code == 5 then Some(Hexahedron)
    else if code == 6 then Some(Prism)
    else if code == 7 then Some(Pyramid)
    else None
  }

  /** The code the writer uses for an element kind. */
  function CodeOf(k: ElementKind): nat
  {
    match k
    case Point => 15
    case Edge => 1
    case Triangle => 2
    case Quadrangle => 3
    case Tetrahedron => 4
    case Hexahedron => 5
    case Prism => 6
    case Pyramid => 7
  }

  /** The reader's and the writer's code tables are inverse to each other. */
  lemma CodeTableRoundTrip(k: ElementKind, code: nat)
    ensures ElementOfCode(CodeOf(k)) == Some(k)
    ensures ElementOfCode(code) == Some(k) ==> CodeOf(k) == code
  {
  }

  /** Number of nodes of each element kind. */
  function Arity(k: ElementKind): (n: nat)
    ensures n >= 1
  {
    match k
    case Point => 1
    case Edge => 2
    case Triangle => 3
    case Quadrangle => 4
    case Tetrahedron => 4
    case Hexahedron => 8
    case Prism => 6
    case Pyramid => 5
  }

  /** The component type an element of each kind is added to. */
  function ComponentOf(k: ElementKind): ComponentType
  {
    match k
    case Point => Corner
    case Edge => Line
    case Triangle | Quadrangle => Surface
    case _ => Block
  }

  predicate IsSolid(k: ElementKind)
  {
    k.Tetrahedron? || k.Hexahedron? || k.Prism? || k.Pyramid?
  }

  /** Gmsh's face tables, in local vertex numbering; empty for non-solids. */
  function Faces(k: ElementKind): seq<seq<nat>>
  {
    match k
    case Tetrahedron => [[0, 1, 2], [0, 2, 3], [1, 3, 2], [0, 3, 1]]
    case Hexahedron =>
      [[0, 1, 2, 3], [7, 6, 5, 4], [0, 3, 7, 4], [1, 5, 6, 2], [2, 6, 7, 3], [0, 4, 5, 1]]
    case Prism => [[0, 1, 2], [5, 4, 3], [0, 2, 5, 3], [0, 3, 4, 1], [1, 4, 5, 2]]
    case Pyramid => [[0, 3, 4], [0, 4, 1], [4, 3, 2], [1, 4, 2], [0, 1, 2, 3]]
    case _ => []
  }

  /** Number of the first `n` faces of `faces` that contain local vertex `v`. */
  function FacesAroundUpTo(faces: seq<seq<nat>>, v: nat, n: nat): (r: nat)
    requires n <= |faces|
    ensures r <= n
  {
    if n == 0 then 0
    else FacesAroundUpTo(faces, v, n - 1) + (if v in faces[n - 1] then 1 else 0)
  }

  /** Number of faces of `faces` that contain local vertex `v`. */
  function FacesAround(faces: seq<seq<nat>>, v: nat): (r: nat)
    ensures r <= |faces|
  {
    FacesAroundUpTo(faces, v, |faces|)
  }

  /** Every local index of a face table is a vertex of the element. */
  predicate IndicesBelow(faces: seq<seq<nat>>, n: nat)
  {
    forall f, i | 0 <= f < |faces| && 0 <= i < |faces[f]| :: faces[f][i] < n
  }

  /**
   * The tables describe closed solids: 4, 6, 5 and 5 faces whose indices are
   * vertices of the element.
   */
  lemma FaceTableShape(k: ElementKind)
    requires IsSolid(k)
    ensures |Faces(k)| == (match k case Tetrahedron => 4 case Hexahedron => 6 case _ => 5)
    ensures IndicesBelow(Faces(k), Arity(k))
  {
  }

  /**
   * Every vertex of a solid lies on exactly three faces, except the pyramid
   * apex, which lies on four.
   */
  lemma FaceIncidence(k: ElementKind, v: nat)
    requires IsSolid(k) && v < Arity(k)
    ensures FacesAround(Faces(k), v) == if k == Pyramid && v == 4 then 4 else 3
  {
    match k
    case Tetrahedron => TetrahedronIncidence(v);
    case Hexahedron => HexahedronIncidence(v);
    case Prism => PrismIncidence(v);
    case Pyramid => PyramidIncidence(v);
  }

  lemma TetrahedronIncidence(v: nat)
    requires v < 4
    ensures FacesAround(Faces(Tetrahedron), v) == 3
  {
    if v == 0 { assert FacesAroundUpTo(Faces(Tetrahedron), 0, 4) == 3; }
    else if v == 1 { assert FacesAroundUpTo(Faces(Tetrahedron), 1, 4) == 3; }
    else if v == 2 { assert FacesAroundUpTo(Faces(Tetrahedron), 2, 4) == 3; }
    else if v == 3 { assert FacesAroundUpTo(Faces(Tetrahedron), 3, 4) == 3; }
  }

  lemma HexahedronIncidence(v: nat)
    requires v < 8
    ensures FacesAround(Faces(Hexahedron), v) == 3
  {
    var fs := Faces(Hexahedron);
    if v < 4 {
      if v == 0 { assert FacesAroundUpTo(fs, 0, 6) == 3; }
      else if v == 1 { assert FacesAroundUpTo(fs, 1, 6) == 3; }
      else if v == 2 { assert FacesAroundUpTo(fs, 2, 6) == 3; }
      else { assert FacesAroundUpTo(fs, 3, 6) == 3; }
    } else {
      HexahedronTopIncidence(v);
    }
  }

  lemma HexahedronTopIncidence(v: nat)
    requires 4 <= v < 8
    ensures FacesAround(Faces(Hexahedron), v) == 3
  {
    var fs := Faces(Hexahedron);
    if v == 4 { assert FacesAroundUpTo(fs, 4, 6) == 3; }
    else if v == 5 { assert FacesAroundUpTo(fs, 5, 6) == 3; }
    else if v == 6 { assert FacesAroundUpTo(fs, 6, 6) == 3; }
    else { assert FacesAroundUpTo(fs, 7, 6) == 3; }
  }

  lemma PrismIncidence(v: nat)
    requires v < 6
    ensures FacesAround(Faces(Prism), v) == 3
  {
    var fs := Faces(Prism);
    if v < 3 {
      if v == 0 { assert FacesAroundUpTo(fs, 0, 5) == 3; }
      else if v == 1 { assert FacesAroundUpTo(fs, 1, 5) == 3; }
      else { assert FacesAroundUpTo(fs, 2, 5) == 3; }
    } else {
      PrismTopIncidence(v);
    }
  }

  lemma PrismTopIncidence(v: nat)
    requires 3 <= v < 6
    ensures FacesAround(Faces(Prism), v) == 3
  {
    var fs := Faces(Prism);
    if v == 3 { assert FacesAroundUpTo(fs, 3, 5) == 3; }
    else if v == 4 { assert FacesAroundUpTo(fs, 4, 5) == 3; }
    else { assert FacesAroundUpTo(fs, 5, 5) == 3; }
  }

  lemma PyramidIncidence(v: nat)
    requires v < 5
    ensures FacesAround(Faces(Pyramid), v) == (if v == 4 then 4 else 3)
  {
    var fs := Faces(Pyramid);
    if v < 3 {
      if v == 0 { assert FacesAroundUpTo(fs, 0, 5) == 3; }
      else if v == 1 { assert FacesAroundUpTo(fs, 1, 5) == 3; }
      else { assert FacesAroundUpTo(fs, 2, 5) == 3; }
    } else {
      PyramidTopIncidence(v);
    }
  }

  lemma PyramidTopIncidence(v: nat)
    requires 3 <= v < 5
    ensures FacesAround(Faces(Pyramid), v) == (if v == 4 then 4 else 3)
  {
    var fs := Faces(Pyramid);
    if v == 3 { assert FacesAroundUpTo(fs, 3, 5) == 3; }
    else { assert FacesAroundUpTo(fs, 4, 5) == 4; }
  }

  // ---------------------------------------------------------------------
  // Node ids
  // ---------------------------------------------------------------------

  /**
   * A file node id turned into a unique-vertex id by subtracting
   * GMSH_OFFSET_START in 32-bit unsigned arithmetic.
   */
  function ToUniqueVertex(fileId: Index): (u: Index)
    ensures fileId >= GMSH_OFFSET_START ==> u == fileId - GMSH_OFFSET_START
    ensures fileId == 0 ==> u == NO_ID
  {
    (fileId + INDEX_LIMIT - GMSH_OFFSET_START) % INDEX_LIMIT
  }

  /** The writer's node reference: unique vertex plus GMSH_OFFSET_START. */
  function ToFileId(u: nat): nat
  {
    u + GMSH_OFFSET_START
  }

  /** The writer's +1 and the reader's −1 undo each other. */
  lemma NodeOffsetsInverse(u: nat)
    requires u < NO_ID
    ensures ToFileId(u) < INDEX_LIMIT
    ensures ToUniqueVertex(ToFileId(u)) == u
    ensures ToFileId(u) >= 1
  {
  }

  /**
   * Position of the first of the first `nb` tokens that does not convert
   * (a missing token counts as not converting), or `nb` if all do.
   */
  function FirstFailure(tokens: seq<string>, nb: nat): (f: nat)
    ensures f <= nb && f <= |tokens|
    ensures forall n | 0 <= n < f :: ParseIndex(tokens[n]).Some?
    ensures f < nb ==> f >= |tokens| || ParseIndex(tokens[f]).None?
  {
    if nb == 0 then 0
    else
      var f := FirstFailure(tokens, nb - 1);
      if f < nb - 1 then f
      else if nb - 1 < |tokens| && ParseIndex(tokens[nb - 1]).Some? then nb
      else nb - 1
  }

  /**
   * `read_vertex_ids`: the ids vector is resized to `nb` zeros and filled
   * token by token; the first token that does not convert throws, the
   * exception is caught and logged, and the remaining ids stay 0.
   */
  method ReadVertexIds(tokens: seq<string>, nb: nat) returns (ids: seq<Index>)
    ensures |ids| == nb
    ensures forall n | 0 <= n < FirstFailure(tokens, nb) :: n < |tokens| && ids[n] == ParseIndex(tokens[n]).value
    ensures forall n | FirstFailure(tokens, nb) <= n < nb :: ids[n] == 0
  {
    ids := seq(nb, _ => 0);
    var n := 0;
    while n < nb
      invariant n <= nb && |ids| == nb
      invariant n <= |tokens|
      invariant forall m | 0 <= m < n :: ParseIndex(tokens[m]).Some? && ids[m] == ParseIndex(tokens[m]).value
      invariant forall m | n <= m < nb :: ids[m] == 0
    {
      if n >= |tokens| {
        break;
      }
      var v := ParseIndex(tokens[n]);
      if v.None? {
        break;
      }
      ids := ids[n := v.value];
      n := n + 1;
    }
    FirstFailureAt(tokens, nb, n);
  }

  /** When the first `n` tokens convert and token `n` does not, `n` is the first failure. */
  lemma {:induction false} FirstFailureAt(tokens: seq<string>, nb: nat, n: nat)
    requires n <= nb && n <= |tokens|
    requires forall m | 0 <= m < n :: ParseIndex(tokens[m]).Some?
    requires n < nb ==> n >= |tokens| || ParseIndex(tokens[n]).None?
    ensures FirstFailure(tokens, nb) == n
    decreases nb
  {
    if nb > 0 {
      if n < nb {
        if n < nb - 1 {
          FirstFailureAt(tokens, nb - 1, n);
        } else {
          FirstFailureAt(tokens, nb - 1, nb - 1);
        }
      } else {
        FirstFailureAt(tokens, nb - 1, nb - 1);
      }
    }
  }

  // ---------------------------------------------------------------------
  // Elements
  // ---------------------------------------------------------------------

  datatype GmshElement = GmshElement(
    kind: ElementKind,
    physical: nat,
    elementary: nat,
    vertexIds: seq<Index>)

  /**
   * `GMSHElementFactory::create` followed by the `GMSHElement` constructor:
   * an unregistered code or an elementary tag of 0 throws; otherwise the
   * node ids are read from the first `Arity` tokens.
   */
  method CreateElement(code: nat, physical: nat, elementary: nat, tokens: seq<string>)
    returns (r: Result<GmshElement>)
    ensures r.Err? <==> ElementOfCode(code).None? || elementary == 0
    ensures r.Ok? ==> (
      && r.value.kind == ElementOfCode(code).value
      && r.value.physical == physical && r.value.elementary == elementary
      && |r.value.vertexIds| == Arity(r.value.kind)
      && (forall n | 0 <= n < FirstFailure(tokens, Arity(r.value.kind)) ::
            n < |tokens| && r.value.vertexIds[n] == ParseIndex(tokens[n]).value))
  {
    var kind := ElementOfCode(code);
    if kind.None? {
      return Err("unknown Gmsh element type");
    }
    if elementary == 0 {
      return Err("GMSH tag for elementary entity (second tag) should not be null");
    }
    var ids := ReadVertexIds(tokens, Arity(kind.value));
    r := Ok(GmshElement(kind.value, physical, elementary, ids));
  }

  /** Every entry of the id map names an existing component of its type. */
  predicate IdMapValid(b: BRep, idMap: IdMap)
  {
    forall key | key in idMap :: idMap[key] < |Components(b, key.kind)|
  }

  /** The local vertices `first`, `first + 1`, …, `first + n - 1`. */
  function Consecutive(first: nat, n: nat): (r: seq<nat>)
    ensures |r| == n
    ensures forall k | 0 <= k < n :: r[k] == first + k
  {
    seq(n, k requires 0 <= k < n => first + k)
  }

  function UniqueVerticesOf(ids: seq<Index>): (r: seq<nat>)
    ensures |r| == |ids|
    ensures forall k | 0 <= k < |ids| :: r[k] == ToUniqueVertex(ids[k])
  {
    seq(|ids|, k requires 0 <= k < |ids| => ToUniqueVertex(ids[k]) as nat)
  }

  /** An element as the factory builds it: as many node ids as its kind has vertices. */
  predicate Shaped(e: GmshElement)
  {
    |e.vertexIds| == Arity(e.kind)
  }

  /**
   * What `add_element` does to the model and the id map: finds the
   * component for (component type, elementary tag), creating it and
   * recording it in the map if the key is new, then appends fresh local
   * vertices linked to the element's node ids minus one and, except for a
   * point, one cell over those vertices (a polyhedron with its face table).
   */
  function WithElement(b: BRep, idMap: IdMap, e: GmshElement): (r: (BRep, IdMap))
    requires IdMapValid(b, idMap)
    ensures IdMapValid(r.0, r.1)
  {
    var t := ComponentOf(e.kind);
    var key := GmshElementID(t, e.elementary);
    var cs := Components(b, t);
    var c := if key in idMap then idMap[key] else |cs|;
    var idMap' := if key in idMap then idMap else idMap[key := c];
    var cs' := if key in idMap then cs else cs + [EmptyComponent];
    var old_c := cs'[c];
    var cells := old_c.cells
      + (if e.kind == Point then [] else [Cell(Consecutive(|old_c.uniqueOf|, Arity(e.kind)), Faces(e.kind))]);
    var new_c := Component(old_c.uniqueOf + UniqueVerticesOf(e.vertexIds), cells);
    (WithComponents(b, t, cs'[c := new_c]), idMap')
  }

  /**
   * Find-or-create: an existing (component type, elementary tag) entry is
   * reused and never replaced, a missing one is added once, naming a new
   * component; that component gains one local vertex per node id, linked
   * to the node id minus one, and (except for a point) one cell over
   * exactly those new vertices; nothing else changes.
   */
  lemma WithElementEffect(b: BRep, idMap: IdMap, e: GmshElement)
    requires IdMapValid(b, idMap)
    ensures var r := WithElement(b, idMap, e);
      var key := GmshElementID(ComponentOf(e.kind), e.elementary);
      && (key in idMap ==> r.1 == idMap && |Components(r.0, key.kind)| == |Components(b, key.kind)|)
      && (key !in idMap ==> (
            && r.1 == idMap[key := |Components(b, key.kind)|]
            && |Components(r.0, key.kind)| == |Components(b, key.kind)| + 1))
    ensures var r := WithElement(b, idMap, e);
      var t := ComponentOf(e.kind);
      var c := r.1[GmshElementID(t, e.elementary)];
      var old_c := if c < |Components(b, t)| then Components(b, t)[c] else EmptyComponent;
      var new_c := Components(r.0, t)[c];
      && (forall v | 0 <= v < |e.vertexIds| ::
            new_c.uniqueOf[|old_c.uniqueOf| + v] == ToUniqueVertex(e.vertexIds[v]))
      && new_c.uniqueOf[..|old_c.uniqueOf|] == old_c.uniqueOf
      && |new_c.uniqueOf| == |old_c.uniqueOf| + |e.vertexIds|
      && new_c.cells[..|old_c.cells|] == old_c.cells
      && (e.kind == Point ==> |new_c.cells| == |old_c.cells|)
      && (e.kind != Point ==> (
            && |new_c.cells| == |old_c.cells| + 1
            && new_c.cells[|old_c.cells|].faces == Faces(e.kind)
            && forall k | 0 <= k < Arity(e.kind) :: new_c.cells[|old_c.cells|].vertices[k] == |old_c.uniqueOf| + k))
      && (forall i | 0 <= i < |Components(b, t)| && i != c :: Components(r.0, t)[i] == Components(b, t)[i])
    ensures var r := WithElement(b, idMap, e);
      && (forall u | u != ComponentOf(e.kind) :: Components(r.0, u) == Components(b, u))
      && r.0.nbUniqueVertices == b.nbUniqueVertices && r.0.boundaries == b.boundaries
  {
    WithElementKey(b, idMap, e);
    WithElementComponent(b, idMap, e);
    WithElementOthers(b, idMap, e);
  }

  /** The map entry of the element's key: reused, or added once for a new component. */
  lemma WithElementKey(b: BRep, idMap: IdMap, e: GmshElement)
    requires IdMapValid(b, idMap)
    ensures var r := WithElement(b, idMap, e);
      var key := GmshElementID(ComponentOf(e.kind), e.elementary);
      && (key in idMap ==> r.1 == idMap && |Components(r.0, key.kind)| == |Components(b, key.kind)|)
      && (key !in idMap ==> (
            && r.1 == idMap[key := |Components(b, key.kind)|]
            && |Components(r.0, key.kind)| == |Components(b, key.kind)| + 1))
  {
  }

  /** The component of the element's key gains its vertices and its cell; its siblings stay. */
  lemma WithElementComponent(b: BRep, idMap: IdMap, e: GmshElement)
    requires IdMapValid(b, idMap)
    ensures var r := WithElement(b, idMap, e);
      var t := ComponentOf(e.kind);
      var c := r.1[GmshElementID(t, e.elementary)];
      var old_c := if c < |Components(b, t)| then Components(b, t)[c] else EmptyComponent;
      var new_c := Components(r.0, t)[c];
      && (forall v | 0 <= v < |e.vertexIds| ::
            new_c.uniqueOf[|old_c.uniqueOf| + v] == ToUniqueVertex(e.vertexIds[v]))
      && new_c.uniqueOf[..|old_c.uniqueOf|] == old_c.uniqueOf
      && |new_c.uniqueOf| == |old_c.uniqueOf| + |e.vertexIds|
      && new_c.cells[..|old_c.cells|] == old_c.cells
      && (e.kind == Point ==> |new_c.cells| == |old_c.cells|)
      && (e.kind != Point ==> (
            && |new_c.cells| == |old_c.cells| + 1
            && new_c.cells[|old_c.cells|].faces == Faces(e.kind)
            && forall k | 0 <= k < Arity(e.kind) :: new_c.cells[|old_c.cells|].vertices[k] == |old_c.uniqueOf| + k))
      && (forall i | 0 <= i < |Components(b, t)| && i != c :: Components(r.0, t)[i] == Components(b, t)[i])
  {
  }

  /** The other component types, the unique vertex count and the relations stay. */
  lemma WithElementOthers(b: BRep, idMap: IdMap, e: GmshElement)
    requires IdMapValid(b, idMap)
    ensures var r := WithElement(b, idMap, e);
      && (forall u | u != ComponentOf(e.kind) :: Components(r.0, u) == Components(b, u))
      && r.0.nbUniqueVertices == b.nbUniqueVertices && r.0.boundaries == b.boundaries

  {
  }

  /** Adding an element keeps every component well formed and every relation between existing components. */
  lemma WithElementValid(b: BRep, idMap: IdMap, e: GmshElement)
    requires IdMapValid(b, idMap) && Shaped(e)
    ensures AllWellFormed(b) ==> AllWellFormed(WithElement(b, idMap, e).0)
    ensures RelationsValid(b) ==> RelationsValid(WithElement(b, idMap, e).0)
    ensures WithElement(b, idMap, e).0.nbUniqueVertices == b.nbUniqueVertices
    ensures WithElement(b, idMap, e).0.boundaries == b.boundaries
  {
    var t := ComponentOf(e.kind);
    var r := WithElement(b, idMap, e);
    var c := r.1[GmshElementID(t, e.elementary)];
    var old_c := if c < |Components(b, t)| then Components(b, t)[c] else EmptyComponent;
    assert WellFormed(old_c) ==> WellFormed(Components(r.0, t)[c]);
  }

  /** `add_element` on the model and the id map. */
  method AddElement(b: BRep, idMap: IdMap, e: GmshElement) returns (b': BRep, idMap': IdMap)
    requires IdMapValid(b, idMap)
    ensures (b', idMap') == WithElement(b, idMap, e)
  {
    var t := ComponentOf(e.kind);
    var key := GmshElementID(t, e.elementary);
    var cs := Components(b, t);
    var c: nat;
    if key in idMap {
      c := idMap[key];
      idMap' := idMap;
    } else {
      c := |cs|;
      cs := cs + [EmptyComponent];
      idMap' := idMap[key := c];
    }
    var comp := cs[c];
    var first := |comp.uniqueOf|;
    var cells := comp.cells;
    if e.kind != Point {
      cells := cells + [Cell(Consecutive(first, Arity(e.kind)), Faces(e.kind))];
    } else {
      assert cells == comp.cells + [];
    }
    comp := Component(comp.uniqueOf + UniqueVerticesOf(e.vertexIds), cells);
    cs := cs[c := comp];
    b' := WithComponents(b, t, cs);
  }

  /** Every element of `es` has as many node ids as its kind has vertices. */
  predicate AllShaped(es: seq<GmshElement>)
    decreases |es|
  {
    |es| == 0 || (AllShaped(es[..|es| - 1]) && Shaped(es[|es| - 1]))
  }

  lemma {:induction false} AllShapedIff(es: seq<GmshElement>)
    ensures AllShaped(es) <==> forall k | 0 <= k < |es| :: Shaped(es[k])
    decreases |es|
  {
    if |es| > 0 {
      var init := es[..|es| - 1];
      AllShapedIff(init);
      assert forall k | 0 <= k < |init| :: init[k] == es[k];
    }
  }

  lemma {:induction false} AllShapedAppend(xs: seq<GmshElement>, ys: seq<GmshElement>)
    requires AllShaped(xs) && AllShaped(ys)
    ensures AllShaped(xs + ys)
  {
    AllShapedIff(xs);
    AllShapedIff(ys);
    AllShapedIff(xs + ys);
  }

  /** The elements of a section added one after the other. */
  function ApplyElements(b: BRep, idMap: IdMap, es: seq<GmshElement>): (r: (BRep, IdMap))
    requires IdMapValid(b, idMap)
    ensures IdMapValid(r.0, r.1)
    decreases |es|
  {
    if es == [] then (b, idMap)
    else
      var (b1, m1) := ApplyElements(b, idMap, es[..|es| - 1]);
      WithElement(b1, m1, es[|es| - 1])
  }

  /**
   * Elements of the expected shape keep the model well formed, create no
   * unique vertex and no relation.
   */
  lemma {:induction false} ApplyElementsValid(b: BRep, idMap: IdMap, es: seq<GmshElement>)
    requires IdMapValid(b, idMap) && AllShaped(es)
    ensures AllWellFormed(b) ==> AllWellFormed(ApplyElements(b, idMap, es).0)
    ensures RelationsValid(b) ==> RelationsValid(ApplyElements(b, idMap, es).0)
    ensures ApplyElements(b, idMap, es).0.nbUniqueVertices == b.nbUniqueVertices
    ensures ApplyElements(b, idMap, es).0.boundaries == b.boundaries
    decreases |es|
  {
    if es != [] {
      ApplyElementsValid(b, idMap, es[..|es| - 1]);
      var (b1, m1) := ApplyElements(b, idMap, es[..|es| - 1]);
      WithElementValid(b1, m1, es[|es| - 1]);
    }
  }

  /** One more element. */
  lemma ApplyElementsSnoc(b: BRep, idMap: IdMap, es: seq<GmshElement>, e: GmshElement)
    requires IdMapValid(b, idMap)
    ensures var p := ApplyElements(b, idMap, es);
      ApplyElements(b, idMap, es + [e]) == WithElement(p.0, p.1, e)
  {
    assert (es + [e])[..|es|] == es;
  }

  /** Adding two runs of elements is adding their concatenation. */
  lemma {:induction false} ApplyElementsAppend(b: BRep, idMap: IdMap, xs: seq<GmshElement>, ys: seq<GmshElement>)
    requires IdMapValid(b, idMap)
    ensures var p := ApplyElements(b, idMap, xs);
      ApplyElements(b, idMap, xs + ys) == ApplyElements(p.0, p.1, ys)
    decreases |ys|
  {
    var p := ApplyElements(b, idMap, xs);
    if ys == [] {
      assert xs + ys == xs;
    } else {
      var init, last := ys[..|ys| - 1], ys[|ys| - 1];
      SplitLast(xs, ys);
      ApplyElementsAppend(b, idMap, xs, init);
      ApplyElementsSnoc(b, idMap, xs + init, last);
      ApplyElementsSnoc(p.0, p.1, init, last);
    }
  }

  /** Sequence facts for the inductive step above, kept apart from it. */
  lemma SplitLast<T>(xs: seq<T>, ys: seq<T>)
    requires ys != []
    ensures xs + ys == (xs + ys[..|ys| - 1]) + [ys[|ys| - 1]]
    ensures ys == ys[..|ys| - 1] + [ys[|ys| - 1]]
  {
  }
}
