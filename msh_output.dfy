/**
 * The Gmsh MSH 4.1 writer (`MSHOutputImpl`): a fixed header, an entity
 * section that numbers the components of every type 1, 2, ... in
 * iteration order, a node section that exports every unique vertex once,
 * from the first component that uses it, and an element section whose
 * element tags run on from 1 across all components.
 */
module MshOutput {
  import opened Wrappers
  import opened Seqs
  import opened Text
  import opened Streams
  import opened BRepModel
  import opened MshCommon
  import opened MshLines
  import opened MshExport

  const DEFAULT_PHYSICAL_TAG: nat := 0

  /**
   * The model as the writer reads it: the boundary representation, the
   * point of every local vertex, the text of every component's bounding
   * box (computed in floating point, so given here), and the internal
   * relations (an internal line of a surface, an internal surface of a
   * block), as (internal component, embedding component) pairs.
   */
  datatype Scene = Scene(
    brep: BRep,
    points: map<ComponentId, seq<Coords>>,
    boxes: map<ComponentId, string>,
    internals: set<Relation>)

  /** `Point3D::string`: the three coordinates separated by spaces. */
  function CoordsText(p: Coords): string
  {
    p.x + " " + p.y + " " + p.z
  }

  /**
   * The element type each component type is written as: surfaces always
   * as triangles and blocks always as tetrahedra.
   */
  function WrittenKind(t: ComponentType): ElementKind
  {
    match t
    case Corner => Point
    case Line => Edge
    case Surface => Triangle
    case Block => Tetrahedron
  }

  /** The reader's code table sends each written code back to an element type of the same component type. */
  lemma WrittenCodesReadBack(t: ComponentType)
    ensures ElementOfCode(CodeOf(WrittenKind(t))) == Some(WrittenKind(t))
    ensures ComponentOf(WrittenKind(t)) == t
  {
    CodeTableRoundTrip(WrittenKind(t), CodeOf(WrittenKind(t)));
  }

  /** Whether `id` names a component of `b`. */
  predicate Exists(b: BRep, id: ComponentId)
  {
    id.index < |Components(b, id.kind)|
  }

  function ComponentAt(b: BRep, id: ComponentId): Component
    requires Exists(b, id)
  {
    Components(b, id.kind)[id.index]
  }

  /** The entity data the writer reads for `id`: its box, and the point of a corner. */
  predicate Described(s: Scene, id: ComponentId)
  {
    && id in s.boxes
    && (id.kind == Corner ==> id in s.points && |s.points[id]| > 0)
  }

  /** Every component of type `t` has its entity data. */
  predicate KindDescribed(s: Scene, t: ComponentType)
  {
    forall j | 0 <= j < |Components(s.brep, t)| :: Described(s, ComponentId(t, j))
  }

  predicate AllDescribed(s: Scene)
  {
    KindDescribed(s, Corner) && KindDescribed(s, Line) && KindDescribed(s, Surface) && KindDescribed(s, Block)
  }

  // ---------------------------------------------------------------------
  // Header
  // ---------------------------------------------------------------------

  /** `write_header`: version 4.1, ascii, 8-byte sizes. */
  function HeaderLines(): seq<string>
  {
    [MESH_FORMAT, "4.1 0 8", END_MESH_FORMAT]
  }

  /** Three words separated by single spaces tokenize as those words. */
  lemma SplitThree(a: string, b: string, c: string)
    requires IsWord(a) && IsWord(b) && IsWord(c)
    ensures Split(a + " " + b + " " + c) == [a, b, c]
  {
    SpacedThree(a, b, c);
    SplitWord(a, [' '] + (b + ([' '] + c)));
    SplitSpace(' ', b + ([' '] + c));
    SplitWord(b, [' '] + c);
    SplitSpace(' ', c);
    SplitWord(c, []);
    assert c + [] == c;
  }

  lemma SpacedThree(a: string, b: string, c: string)
    ensures a + " " + b + " " + c == a + ([' '] + (b + ([' '] + c)))
  {
  }

  /** The writer's version line tokenizes as the version, the file type and the size width. */
  lemma VersionLineTokens()
    ensures Split("4.1 0 8") == ["4.1", "0", "8"]
  {
    var a, b, c := "4.1", "0", "8";
    assert IsWord(a) && IsWord(b) && IsWord(c);
    SplitThree(a, b, c);
    assert a + " " + b + " " + c == "4.1 0 8";
  }

  /** A line whose tokens are "4.1", "0" and "8" is read as version 4, ascii. */
  lemma VersionOfTokens(line: string)
    requires Split(line) == ["4.1", "0", "8"]
    ensures MshVersion(line) == Ok(4)
  {
    var v := "4.1";
    assert LeadingDigits(v[1..]) == 0;
    assert LeadingDigits(v) == 1;
    assert v[..1] == "4" && v[2..] == "1";
    assert DigitsValue("4") == 4;
    assert VersionFloor(v) == Some(4);
    assert ParseNat("0") == Some(0);
  }

  /** The reader takes the writer's version line for version 4, ascii. */
  lemma VersionLineReadsBack()
    ensures MshVersion("4.1 0 8") == Ok(4)
  {
    VersionLineTokens();
    VersionOfTokens("4.1 0 8");
  }

  /** The reader accepts the header the writer writes, as a version 4 file. */
  lemma HeaderReadsBack(rest: seq<string>)
    ensures Header(HeaderLines() + rest) == Ok(4)
  {
    var lines := HeaderLines() + rest;
    assert LineAt(lines, 0) == MESH_FORMAT && LineAt(lines, 1) == "4.1 0 8" && LineAt(lines, 2) == END_MESH_FORMAT;
    VersionLineReadsBack();
  }

  // ---------------------------------------------------------------------
  // Entities
  // ---------------------------------------------------------------------

  /** `component_type2dimension`. */
  function Dimension(t: ComponentType): nat
  {
    match t
    case Corner => 0
    case Line => 1
    case Surface => 2
    case Block => 3
  }

  /** The type whose components bound components of type `t`, if any. */
  function Below(t: ComponentType): Option<ComponentType>
  {
    match t
    case Corner => None
    case Line => Some(Corner)
    case Surface => Some(Line)
    case Block => Some(Surface)
  }

  /**
   * The first `n` components of type `k`, as indices in increasing order,
   * that `rels` pairs with `id` as (`k` component, `id`).
   */
  function Related(rels: set<Relation>, k: ComponentType, n: nat, id: ComponentId): (r: seq<nat>)
    ensures forall j: nat :: j in r <==> j < n && (ComponentId(k, j), id) in rels
    ensures forall a | 0 <= a < |r| :: r[a] < n
    ensures Increasing(r)
  {
    if n == 0 then []
    else Related(rels, k, n - 1, id) + (if (ComponentId(k, n - 1), id) in rels then [n - 1] else [])
  }

  /** `brep_.boundaries(component)`, iterated in index order. */
  function BoundaryList(s: Scene, id: ComponentId): seq<ComponentId>
  {
    match Below(id.kind)
    case None => []
    case Some(k) =>
      var r := Related(s.brep.boundaries, k, |Components(s.brep, k)|, id);
      seq(|r|, j requires 0 <= j < |r| => ComponentId(k, r[j]))
  }

  /**
   * `internal_lines(surface)` and `internal_surfaces(block)`, iterated in
   * index order; the writer lists none for corners and lines.
   */
  function InternalList(s: Scene, id: ComponentId): seq<ComponentId>
  {
    if id.kind == Corner || id.kind == Line then []
    else
      var k := Below(id.kind).value;
      var r := Related(s.internals, k, |Components(s.brep, k)|, id);
      seq(|r|, j requires 0 <= j < |r| => ComponentId(k, r[j]))
  }

  /** Every id listed as a boundary or an internal names a component of the type below. */
  lemma ListedBelow(s: Scene, id: ComponentId)
    ensures forall c | c in BoundaryList(s, id) + InternalList(s, id) ::
      Below(id.kind) == Some(c.kind) && Exists(s.brep, c)
  {
  }

  /** " id" for each boundary tag. */
  function BoundaryText(tags: seq<nat>): string
  {
    if tags == [] then "" else BoundaryText(tags[..|tags| - 1]) + " " + NatToString(tags[|tags| - 1])
  }

  /** " id -id" for each internal tag. */
  function InternalText(tags: seq<nat>): string
  {
    if tags == [] then ""
    else
      var t := NatToString(tags[|tags| - 1]);
      InternalText(tags[..|tags| - 1]) + " " + t + " -" + t
  }

  /** The Gmsh tags of components: their index plus one. */
  function TagsOf(cs: seq<ComponentId>): (r: seq<nat>)
    ensures |r| == |cs| && forall j | 0 <= j < |cs| :: r[j] == cs[j].index + 1
  {
    seq(|cs|, j requires 0 <= j < |cs| => cs[j].index + 1)
  }

  /**
   * The entity line of component `id` given the tags of its boundaries
   * and internals: a corner is "tag x y z 0"; any other component is
   * "tag box 0 count ids...", the count being the number of boundaries
   * plus twice the number of internals, and each internal written as its
   * tag and its negated tag.
   */
  function EntityLineWith(s: Scene, id: ComponentId, bounds: seq<nat>, internals: seq<nat>): string
    requires Described(s, id)
  {
    var tag := NatToString(id.index + 1);
    if id.kind == Corner then
      tag + " " + CoordsText(s.points[id][0]) + " " + NatToString(DEFAULT_PHYSICAL_TAG)
    else
      tag + " " + s.boxes[id] + " " + NatToString(DEFAULT_PHYSICAL_TAG) + " "
        + NatToString(|bounds| + 2 * |internals|) + BoundaryText(bounds) + InternalText(internals)
  }

  /** The entity line of component `id`, boundaries and internals named by their tags. */
  function EntityText(s: Scene, id: ComponentId): string
    requires Described(s, id)
  {
    EntityLineWith(s, id, TagsOf(BoundaryList(s, id)), TagsOf(InternalList(s, id)))
  }

  /** The entity lines of the first `n` components of type `t`. */
  function KindEntityLines(s: Scene, t: ComponentType, n: nat): (r: seq<string>)
    requires KindDescribed(s, t) && n <= |Components(s.brep, t)|
    ensures |r| == n
  {
    if n == 0 then [] else KindEntityLines(s, t, n - 1) + [EntityText(s, ComponentId(t, n - 1))]
  }

  lemma KindEntityLinesStep(s: Scene, t: ComponentType, n: nat)
    requires KindDescribed(s, t) && n < |Components(s.brep, t)|
    ensures KindEntityLines(s, t, n + 1) == KindEntityLines(s, t, n) + [EntityText(s, ComponentId(t, n))]
  {
  }

  /** The number of corners, lines, surfaces and blocks. */
  function CountsLine(b: BRep): string
  {
    Spaced([|b.corners|, |b.lines|, |b.surfaces|, |b.blocks|])
  }

  /** `write_entities`: the section with the four component counts, then every component. */
  function EntitiesText(s: Scene): seq<string>
    requires AllDescribed(s)
  {
    var b := s.brep;
    [ENTITIES, CountsLine(b)]
      + KindEntityLines(s, Corner, |b.corners|) + KindEntityLines(s, Line, |b.lines|)
      + KindEntityLines(s, Surface, |b.surfaces|) + KindEntityLines(s, Block, |b.blocks|)
      + [END_ENTITIES]
  }

  /** The tag `uuid2gmsh_` holds for `id`: a missing entry reads as a default id, NO_ID. */
  function Lookup(ids: map<ComponentId, nat>, id: ComponentId): nat
  {
    if id in ids then ids[id] else NO_ID
  }

  function Lookups(ids: map<ComponentId, nat>, cs: seq<ComponentId>): (r: seq<nat>)
    ensures |r| == |cs| && forall j | 0 <= j < |cs| :: r[j] == Lookup(ids, cs[j])
  {
    seq(|cs|, j requires 0 <= j < |cs| => Lookup(ids, cs[j]))
  }

  /** The first `n` components of type `t` numbered 1, 2, ..., n. */
  predicate NumberedUpTo(ids: map<ComponentId, nat>, t: ComponentType, n: nat)
  {
    forall j | 0 <= j < n :: ComponentId(t, j) in ids && ids[ComponentId(t, j)] == j + 1
  }

  /** Every component of type `t` numbered. */
  predicate Numbered(ids: map<ComponentId, nat>, b: BRep, t: ComponentType)
  {
    NumberedUpTo(ids, t, |Components(b, t)|)
  }

  /** The numbering every kind of component gets: its index plus one. */
  function Numbering(b: BRep): (r: map<ComponentId, nat>)
    ensures forall t :: Numbered(r, b, t)
    ensures forall id | id in r :: Exists(b, id) && r[id] == id.index + 1
  {
    map id: ComponentId | id in AllIds(b) :: id.index + 1
  }

  /** The identifiers of all components of `b`. */
  function AllIds(b: BRep): (r: set<ComponentId>)
    ensures forall id :: id in r <==> Exists(b, id)
  {
    (set i | 0 <= i < |b.corners| :: ComponentId(Corner, i))
      + (set i | 0 <= i < |b.lines| :: ComponentId(Line, i))
      + (set i | 0 <= i < |b.surfaces| :: ComponentId(Surface, i))
      + (set i | 0 <= i < |b.blocks| :: ComponentId(Block, i))
  }

  /**
   * Once the type below `id`'s is numbered, the writer's lookups give the
   * tags of `id`'s boundaries and internals: none of them is missing.
   */
  lemma LookupsAreTags(s: Scene, ids: map<ComponentId, nat>, id: ComponentId)
    requires id.kind != Corner && Numbered(ids, s.brep, Below(id.kind).value)
    ensures Lookups(ids, BoundaryList(s, id)) == TagsOf(BoundaryList(s, id))
    ensures Lookups(ids, InternalList(s, id)) == TagsOf(InternalList(s, id))
  {
  }

  /** `ids` and `ids'` agree on every component not of type `t`. */
  ghost predicate SameOutside(ids: map<ComponentId, nat>, ids': map<ComponentId, nat>, t: ComponentType)
  {
    forall id: ComponentId | id.kind != t :: (id in ids <==> id in ids') && (id in ids ==> ids[id] == ids'[id])
  }

  /** Numbering one component of type `t` leaves the numbering of the other types as it was. */
  lemma NumberOne(ids: map<ComponentId, nat>, ids0: map<ComponentId, nat>, t: ComponentType, i: nat)
    requires NumberedUpTo(ids, t, i) && SameOutside(ids, ids0, t)
    ensures NumberedUpTo(ids[ComponentId(t, i) := i + 1], t, i + 1)
    ensures SameOutside(ids[ComponentId(t, i) := i + 1], ids0, t)
  {
  }

  /** Numbering the components of `t` keeps the numbering of the type below. */
  lemma NumberedOutside(ids: map<ComponentId, nat>, ids0: map<ComponentId, nat>, b: BRep, t: ComponentType)
    requires t != Corner && Numbered(ids0, b, Below(t).value) && SameOutside(ids, ids0, t)
    ensures Numbered(ids, b, Below(t).value)
  {
    var k := Below(t).value;
    forall j | 0 <= j < |Components(b, k)|
      ensures ComponentId(k, j) in ids && ids[ComponentId(k, j)] == j + 1
    {
      assert ComponentId(k, j).kind != t;
    }
  }

  /**
   * The entity line as the writer puts it together, looking the tags of
   * boundaries and internals up in `ids`: once the type below is
   * numbered, it is the entity line of `id`.
   */
  function WrittenEntityLine(s: Scene, ids: map<ComponentId, nat>, id: ComponentId): (line: string)
    requires Described(s, id)
    requires id.kind != Corner ==> Numbered(ids, s.brep, Below(id.kind).value)
    ensures line == EntityText(s, id)
  {
    if id.kind == Corner then EntityLineWith(s, id, [], [])
    else
      LookupsAreTags(s, ids, id);
      EntityLineWith(s, id, Lookups(ids, BoundaryList(s, id)), Lookups(ids, InternalList(s, id)))
  }

  /** Numbering the four types one after the other numbers them all. */
  lemma NumberingComposes(b: BRep, ids1: map<ComponentId, nat>, ids2: map<ComponentId, nat>,
                          ids3: map<ComponentId, nat>, ids4: map<ComponentId, nat>)
    requires Numbered(ids1, b, Corner)
    requires Numbered(ids2, b, Line) && SameOutside(ids2, ids1, Line)
    requires Numbered(ids3, b, Surface) && SameOutside(ids3, ids2, Surface)
    requires Numbered(ids4, b, Block) && SameOutside(ids4, ids3, Block)
    ensures forall t :: Numbered(ids4, b, t)
  {
    forall t
      ensures Numbered(ids4, b, t)
    {
      forall j | 0 <= j < |Components(b, t)|
        ensures ComponentId(t, j) in ids4 && ids4[ComponentId(t, j)] == j + 1
      {
        var id := ComponentId(t, j);
        match t
        case Corner =>
          assert id in ids1 && ids1[id] == j + 1;
        case Line =>
          assert id in ids2 && ids2[id] == j + 1;
        case Surface =>
          assert id in ids3 && ids3[id] == j + 1;
        case Block =>
      }
    }
  }

  /** The entity section is its opening lines, the four kinds' lines and its closing line. */
  lemma EntitiesTextParts(s: Scene, before: seq<string>, start: seq<string>, after: seq<string>)
    requires AllDescribed(s)
    requires var b := s.brep;
      && start == before + [ENTITIES, CountsLine(b)]
      && after == start + KindEntityLines(s, Corner, |b.corners|) + KindEntityLines(s, Line, |b.lines|)
        + KindEntityLines(s, Surface, |b.surfaces|) + KindEntityLines(s, Block, |b.blocks|) + [END_ENTITIES]
    ensures after == before + EntitiesText(s)
  {
    var b := s.brep;
    EntitiesTextIs(s);
    var head, p1, p2 := [ENTITIES, CountsLine(b)], KindEntityLines(s, Corner, |b.corners|), KindEntityLines(s, Line, |b.lines|);
    var p3, p4 := KindEntityLines(s, Surface, |b.surfaces|), KindEntityLines(s, Block, |b.blocks|);
    AppendThree(before, head, p1, p2);
    AppendThree(before, head + p1 + p2, p3, p4);
    AppendTwo(before, head + p1 + p2 + p3 + p4, [END_ENTITIES]);
  }

  lemma EntitiesTextIs(s: Scene)
    requires AllDescribed(s)
    ensures var b := s.brep;
      EntitiesText(s) == [ENTITIES, CountsLine(b)]
        + KindEntityLines(s, Corner, |b.corners|) + KindEntityLines(s, Line, |b.lines|)
        + KindEntityLines(s, Surface, |b.surfaces|) + KindEntityLines(s, Block, |b.blocks|)
        + [END_ENTITIES]
  {
  }

  // ---------------------------------------------------------------------
  // Nodes
  // ---------------------------------------------------------------------

  /** The components of type `t` in iteration order. */
  function KindIds(b: BRep, t: ComponentType): (r: seq<ComponentId>)
    ensures |r| == |Components(b, t)| && forall i | 0 <= i < |r| :: r[i] == ComponentId(t, i)
  {
    seq(|Components(b, t)|, i requires 0 <= i < |Components(b, t)| => ComponentId(t, i))
  }

  /** The order the writer visits components in: corners, lines, surfaces, then blocks. */
  function Order(b: BRep): (r: seq<ComponentId>)
    ensures forall k | 0 <= k < |r| :: Exists(b, r[k])
    ensures |r| == |b.corners| + |b.lines| + |b.surfaces| + |b.blocks|
  {
    KindIds(b, Corner) + KindIds(b, Line) + KindIds(b, Surface) + KindIds(b, Block)
  }

  /** The unique vertices of the local vertices of each listed component. */
  function UniqueLists(b: BRep, cs: seq<ComponentId>): (r: seq<seq<nat>>)
    requires forall k | 0 <= k < |cs| :: Exists(b, cs[k])
    ensures |r| == |cs| && forall k | 0 <= k < |cs| :: r[k] == ComponentAt(b, cs[k]).uniqueOf
  {
    seq(|cs|, k requires 0 <= k < |cs| => ComponentAt(b, cs[k]).uniqueOf)
  }

  /**
   * What the node section needs of component `id`: a point per local
   * vertex, and every local vertex linked to a unique vertex of the model.
   */
  predicate Placed(s: Scene, id: ComponentId)
  {
    && Exists(s.brep, id)
    && id in s.points && |s.points[id]| == |ComponentAt(s.brep, id).uniqueOf|
    && forall v | 0 <= v < |ComponentAt(s.brep, id).uniqueOf| ::
         ComponentAt(s.brep, id).uniqueOf[v] < s.brep.nbUniqueVertices
  }

  /** Every listed component is placed. */
  predicate AllPlacedIn(s: Scene, cs: seq<ComponentId>)
  {
    forall k | 0 <= k < |cs| :: Placed(s, cs[k])
  }

  /** A placed list of components links only unique vertices of the model. */
  lemma PlacedBounded(s: Scene, cs: seq<ComponentId>)
    requires AllPlacedIn(s, cs)
    ensures Bounded(UniqueLists(s.brep, cs), s.brep.nbUniqueVertices)
  {
    var us := UniqueLists(s.brep, cs);
    forall k, v | 0 <= k < |us| && 0 <= v < |us[k]| ensures us[k][v] < s.brep.nbUniqueVertices {
      assert Placed(s, cs[k]);
    }
  }

  /** The node tag lines of the exported local vertices `vs`: unique vertex plus one. */
  function TagLines(u: seq<nat>, vs: seq<nat>): (r: seq<string>)
    requires forall j | 0 <= j < |vs| :: vs[j] < |u|
    ensures |r| == |vs| && forall j | 0 <= j < |vs| :: r[j] == NatToString(ToFileId(u[vs[j]]))
  {
    seq(|vs|, j requires 0 <= j < |vs| => NatToString(ToFileId(u[vs[j]])))
  }

  /** The coordinate lines of the exported local vertices `vs`. */
  function CoordLines(points: seq<Coords>, vs: seq<nat>): (r: seq<string>)
    requires forall j | 0 <= j < |vs| :: vs[j] < |points|
    ensures |r| == |vs| && forall j | 0 <= j < |vs| :: r[j] == CoordsText(points[vs[j]])
  {
    seq(|vs|, j requires 0 <= j < |vs| => CoordsText(points[vs[j]]))
  }

  lemma TagLinesStep(u: seq<nat>, vs: seq<nat>, j: nat)
    requires j < |vs| && forall a | 0 <= a < |vs| :: vs[a] < |u|
    ensures TagLines(u, vs[..j + 1]) == TagLines(u, vs[..j]) + [NatToString(ToFileId(u[vs[j]]))]
  {
  }

  lemma CoordLinesStep(points: seq<Coords>, vs: seq<nat>, j: nat)
    requires j < |vs| && forall a | 0 <= a < |vs| :: vs[a] < |points|
    ensures CoordLines(points, vs[..j + 1]) == CoordLines(points, vs[..j]) + [CoordsText(points[vs[j]])]
  {
  }

  /**
   * `write_component_nodes` with the flags `flags`: the block header
   * "dim tag 0 count", the tags of the fresh vertices, then their points.
   */
  function NodeBlock(s: Scene, id: ComponentId, flags: seq<bool>): seq<string>
    requires Placed(s, id) && |flags| == s.brep.nbUniqueVertices
  {
    var u := ComponentAt(s.brep, id).uniqueOf;
    var vs := Fresh(u, flags, |u|);
    [Spaced([Dimension(id.kind), id.index + 1, 0, |vs|])] + TagLines(u, vs) + CoordLines(s.points[id], vs)
  }

  /** A node block is its header, its tag lines and its coordinate lines. */
  lemma NodeBlockParts(s: Scene, id: ComponentId, flags: seq<bool>, header: string, vs: seq<nat>)
    requires Placed(s, id) && |flags| == s.brep.nbUniqueVertices
    requires vs == Fresh(ComponentAt(s.brep, id).uniqueOf, flags, |ComponentAt(s.brep, id).uniqueOf|)
    requires header == Spaced([Dimension(id.kind), id.index + 1, 0, |vs|])
    ensures NodeBlock(s, id, flags) == [header] + TagLines(ComponentAt(s.brep, id).uniqueOf, vs) + CoordLines(s.points[id], vs)
  {
    var u := ComponentAt(s.brep, id).uniqueOf;
    assert NodeBlock(s, id, flags) == [Spaced([Dimension(id.kind), id.index + 1, 0, |vs|])] + TagLines(u, vs) + CoordLines(s.points[id], vs);
  }

  /** The node blocks of the components `cs`, each with the flags the earlier ones left. */
  function NodeBlocks(s: Scene, cs: seq<ComponentId>): seq<string>
    requires AllPlacedIn(s, cs)
  {
    if cs == [] then []
    else
      var init := cs[..|cs| - 1];
      assert AllPlacedIn(s, init) by {
        forall k | 0 <= k < |init| ensures Placed(s, init[k]) {
          assert init[k] == cs[k];
        }
      }
      NodeBlocks(s, init) + NodeBlock(s, cs[|cs| - 1], Flags(UniqueLists(s.brep, init), s.brep.nbUniqueVertices))
  }

  /**
   * One more component: its node block follows the earlier ones', and
   * marking what it exported gives the flags after it.
   */
  lemma NodeStep(s: Scene, cs: seq<ComponentId>, k: nat)
    requires AllPlacedIn(s, cs) && k < |cs|
    ensures AllPlacedIn(s, cs[..k]) && AllPlacedIn(s, cs[..k + 1]) && Placed(s, cs[k])
    ensures var nb := s.brep.nbUniqueVertices; var flags := Flags(UniqueLists(s.brep, cs[..k]), nb);
      && NodeBlocks(s, cs[..k + 1]) == NodeBlocks(s, cs[..k]) + NodeBlock(s, cs[k], flags)
      && Mark(flags, FreshUids(ComponentAt(s.brep, cs[k]).uniqueOf, flags)) == Flags(UniqueLists(s.brep, cs[..k + 1]), nb)
  {
    var nb := s.brep.nbUniqueVertices;
    assert cs[..k + 1][..k] == cs[..k];
    assert UniqueLists(s.brep, cs[..k + 1]) == UniqueLists(s.brep, cs[..k]) + [ComponentAt(s.brep, cs[k]).uniqueOf];
    MarkFresh(UniqueLists(s.brep, cs[..k]), ComponentAt(s.brep, cs[k]).uniqueOf, nb);
  }

  /**
   * `write_nodes`: the header "blocks nodes 1 nodes" declaring every
   * unique vertex, one block per component, then "$EndNodes".
   */
  function NodesText(s: Scene): seq<string>
    requires AllPlacedIn(s, Order(s.brep))
  {
    [NODES, Spaced(NodesHeader(s))] + NodeBlocks(s, Order(s.brep)) + [END_NODES]
  }

  /**
   * The values of the line after "$Nodes": the number of node groups, the
   * number of nodes, and the smallest and largest node tag.
   */
  function NodesHeader(s: Scene): (xs: seq<nat>)
    ensures |xs| == 4 && xs[0] == |Order(s.brep)| && xs[2] == GMSH_OFFSET_START
    ensures xs[1] == xs[3] == s.brep.nbUniqueVertices
  {
    var b := s.brep;
    [|Order(b)|, b.nbUniqueVertices, GMSH_OFFSET_START, b.nbUniqueVertices]
  }

  // ---------------------------------------------------------------------
  // Elements
  // ---------------------------------------------------------------------

  /**
   * What the element section needs of component `id`: its cells refer to
   * its own vertices and have at least as many vertices as the element
   * type it is written as.
   */
  predicate Meshed(b: BRep, id: ComponentId)
  {
    && Exists(b, id)
    && WellFormed(ComponentAt(b, id))
    && forall e | 0 <= e < |ComponentAt(b, id).cells| ::
         |ComponentAt(b, id).cells[e].vertices| >= Arity(WrittenKind(id.kind))
  }

  /** Every listed component is meshed. */
  predicate AllMeshedIn(b: BRep, cs: seq<ComponentId>)
  {
    forall k | 0 <= k < |cs| :: Meshed(b, cs[k])
  }

  /**
   * The number of elements written for `id`: one per vertex of a corner,
   * one per edge, polygon or polyhedron of the other components.
   */
  function ElementCount(b: BRep, id: ComponentId): nat
    requires Exists(b, id)
  {
    if id.kind == Corner then |ComponentAt(b, id).uniqueOf| else |ComponentAt(b, id).cells|
  }

  /** `count_elements` over the components `cs`. */
  function TotalElements(b: BRep, cs: seq<ComponentId>): nat
    requires forall k | 0 <= k < |cs| :: Exists(b, cs[k])
  {
    if cs == [] then 0 else TotalElements(b, cs[..|cs| - 1]) + ElementCount(b, cs[|cs| - 1])
  }

  /** One more component adds its element count. */
  lemma TotalStep(b: BRep, cs: seq<ComponentId>, k: nat)
    requires (forall j | 0 <= j < |cs| :: Exists(b, cs[j])) && k < |cs|
    ensures TotalElements(b, cs[..k + 1]) == TotalElements(b, cs[..k]) + ElementCount(b, cs[k])
  {
    assert cs[..k + 1][..k] == cs[..k];
  }

  /** The element counts of a prefix never exceed those of a longer prefix. */
  lemma {:induction false} TotalMonotone(b: BRep, cs: seq<ComponentId>, i: nat, j: nat)
    requires (forall k | 0 <= k < |cs| :: Exists(b, cs[k])) && i <= j <= |cs|
    ensures TotalElements(b, cs[..i]) <= TotalElements(b, cs[..j])
    decreases j - i
  {
    if i < j {
      TotalStep(b, cs, i);
      TotalMonotone(b, cs, i + 1, j);
    }
  }

  /** The number of element `e` of the `k`-th component, counted from 0 across `cs`. */
  function Position(b: BRep, cs: seq<ComponentId>, k: nat, e: nat): nat
    requires (forall j | 0 <= j < |cs| :: Exists(b, cs[j])) && k <= |cs|
  {
    TotalElements(b, cs[..k]) + e
  }

  /** Every element's number is below the total. */
  lemma PositionBelowTotal(b: BRep, cs: seq<ComponentId>, k: nat, e: nat)
    requires (forall j | 0 <= j < |cs| :: Exists(b, cs[j])) && k < |cs| && e < ElementCount(b, cs[k])
    ensures Position(b, cs, k, e) < TotalElements(b, cs)
  {
    TotalStep(b, cs, k);
    TotalMonotone(b, cs, k + 1, |cs|);
    assert cs[..|cs|] == cs;
  }

  /** Two different elements have different numbers. */
  lemma {:induction false} PositionsDistinct(b: BRep, cs: seq<ComponentId>, k: nat, e: nat, k': nat, e': nat)
    requires forall j | 0 <= j < |cs| :: Exists(b, cs[j])
    requires k < |cs| && e < ElementCount(b, cs[k]) && k' < |cs| && e' < ElementCount(b, cs[k'])
    requires (k, e) != (k', e')
    ensures Position(b, cs, k, e) != Position(b, cs, k', e')
  {
    if k < k' {
      PositionBefore(b, cs, k, e, k', e');
    } else if k' < k {
      PositionBefore(b, cs, k', e', k, e);
    }
  }

  /** The elements of an earlier component are numbered before those of a later one. */
  lemma {:induction false} PositionBefore(b: BRep, cs: seq<ComponentId>, k: nat, e: nat, k': nat, e': nat)
    requires forall j | 0 <= j < |cs| :: Exists(b, cs[j])
    requires k < k' < |cs| && e < ElementCount(b, cs[k])
    ensures Position(b, cs, k, e) < Position(b, cs, k', e')
  {
    TotalStep(b, cs, k);
    TotalMonotone(b, cs, k + 1, k');
  }

  /** Every number below the total is the number of some element: the tags leave no gap. */
  lemma {:induction false} PositionsCover(b: BRep, cs: seq<ComponentId>, n: nat)
    requires (forall j | 0 <= j < |cs| :: Exists(b, cs[j])) && n < TotalElements(b, cs)
    ensures exists k, e | 0 <= k < |cs| && 0 <= e < ElementCount(b, cs[k]) :: Position(b, cs, k, e) == n
    decreases |cs|
  {
    var last := |cs| - 1;
    var init := cs[..last];
    TotalStep(b, cs, last);
    assert cs[..|cs|] == cs;
    if n < TotalElements(b, init) {
      PositionsCover(b, init, n);
      var k, e :| 0 <= k < |init| && 0 <= e < ElementCount(b, init[k]) && Position(b, init, k, e) == n;
      PositionOfPrefix(b, cs, k, e);
    } else {
      assert Position(b, cs, last, n - TotalElements(b, init)) == n;
    }
  }

  /** An element of the components before the last has the same number among all of them. */
  lemma PositionOfPrefix(b: BRep, cs: seq<ComponentId>, k: nat, e: nat)
    requires (forall j | 0 <= j < |cs| :: Exists(b, cs[j])) && k < |cs| - 1
    ensures Position(b, cs[..|cs| - 1], k, e) == Position(b, cs, k, e)
  {
    assert cs[..|cs| - 1][..k] == cs[..k];
  }

  /**
   * The unique vertices of element `e` of `id`: the corner's vertex `e`,
   * or the first vertices of cell `e`, as many as the written type has.
   */
  function ElementUniqueVertices(b: BRep, id: ComponentId, e: nat): (r: seq<nat>)
    requires Meshed(b, id) && e < ElementCount(b, id)
    ensures |r| == Arity(WrittenKind(id.kind))
  {
    var c := ComponentAt(b, id);
    var n := Arity(WrittenKind(id.kind));
    if id.kind == Corner then [c.uniqueOf[e]]
    else seq(n, j requires 0 <= j < n => c.uniqueOf[c.cells[e].vertices[j]])
  }

  /** Node references: every unique vertex plus GMSH_OFFSET_START. */
  function FileIds(us: seq<nat>): (r: seq<nat>)
    ensures |r| == |us| && forall j | 0 <= j < |us| :: r[j] == ToFileId(us[j])
  {
    seq(|us|, j requires 0 <= j < |us| => ToFileId(us[j]))
  }

  /** The line of element `e` of `id` tagged `tag`: the tag, then the node references. */
  function ElementLine(b: BRep, id: ComponentId, e: nat, tag: nat): string
    requires Meshed(b, id) && e < ElementCount(b, id)
  {
    Spaced([tag] + FileIds(ElementUniqueVertices(b, id, e)))
  }

  /** The lines of the first `n` elements of `id`, tagged from `first` on. */
  function ElementLines(b: BRep, id: ComponentId, first: nat, n: nat): (r: seq<string>)
    requires Meshed(b, id) && n <= ElementCount(b, id)
    ensures |r| == n && forall e | 0 <= e < n :: r[e] == ElementLine(b, id, e, first + e)
  {
    seq(n, e requires 0 <= e < n => ElementLine(b, id, e, first + e))
  }

  lemma ElementLinesStep(b: BRep, id: ComponentId, first: nat, e: nat)
    requires Meshed(b, id) && e < ElementCount(b, id)
    ensures ElementLines(b, id, first, e + 1) == ElementLines(b, id, first, e) + [ElementLine(b, id, e, first + e)]
  {
  }

  /**
   * `write_*_elements` for one component: the header "dim tag type count"
   * with the Gmsh code of the written type, then its element lines.
   */
  function ElementBlock(b: BRep, id: ComponentId, first: nat): seq<string>
    requires Meshed(b, id)
  {
    [Spaced([Dimension(id.kind), id.index + 1, CodeOf(WrittenKind(id.kind)), ElementCount(b, id)])]
      + ElementLines(b, id, first, ElementCount(b, id))
  }

  /** The element blocks of the components `cs`, numbering their elements from `first` on. */
  function ElementBlocks(b: BRep, cs: seq<ComponentId>, first: nat): seq<string>
    requires AllMeshedIn(b, cs)
  {
    if cs == [] then []
    else
      var init := cs[..|cs| - 1];
      assert AllMeshedIn(b, init) by {
        forall k | 0 <= k < |init| ensures Meshed(b, init[k]) {
          assert init[k] == cs[k];
        }
      }
      ElementBlocks(b, init, first) + ElementBlock(b, cs[|cs| - 1], first + TotalElements(b, init))
  }

  /** One more component: its element block follows the earlier ones', numbered after them. */
  lemma ElementStep(b: BRep, cs: seq<ComponentId>, first: nat, k: nat)
    requires AllMeshedIn(b, cs) && k < |cs|
    ensures AllMeshedIn(b, cs[..k]) && AllMeshedIn(b, cs[..k + 1]) && Meshed(b, cs[k])
    ensures ElementBlocks(b, cs[..k + 1], first) == ElementBlocks(b, cs[..k], first) + ElementBlock(b, cs[k], first + TotalElements(b, cs[..k]))
    ensures TotalElements(b, cs[..k + 1]) == TotalElements(b, cs[..k]) + ElementCount(b, cs[k])
  {
    assert cs[..k + 1][..k] == cs[..k];
  }

  /**
   * `write_elements`: the header "blocks elements 1 elements", then the
   * element blocks of the corners, lines, surfaces and blocks, numbered
   * from 1 on, then "$EndElements".
   */
  function ElementsText(b: BRep): seq<string>
    requires AllMeshedIn(b, Order(b))
  {
    var total := TotalElements(b, Order(b));
    [ELEMENTS, Spaced([|Order(b)|, total, GMSH_OFFSET_START, total])]
      + ElementBlocks(b, Order(b), GMSH_OFFSET_START) + [END_ELEMENTS]
  }

  /**
   * The reader reads a written element line back, in a group of the
   * written code and entity tag, as an element of the written type whose
   * node references turn back into the unique vertices they came from.
   */
  lemma ElementLineReadsBack(b: BRep, id: ComponentId, e: nat, tag: nat)
    requires Meshed(b, id) && e < ElementCount(b, id) && tag < INDEX_LIMIT
    requires forall j | 0 <= j < |ElementUniqueVertices(b, id, e)| :: ElementUniqueVertices(b, id, e)[j] < NO_ID
    ensures var r := ElementLineV4(CodeOf(WrittenKind(id.kind)), id.index + 1, ElementLine(b, id, e, tag));
      && r.Ok? && r.value.kind == WrittenKind(id.kind) && r.value.elementary == id.index + 1
      && |r.value.vertexIds| == |ElementUniqueVertices(b, id, e)|
      && forall j | 0 <= j < |r.value.vertexIds| :: ToUniqueVertex(r.value.vertexIds[j]) == ElementUniqueVertices(b, id, e)[j]
  {
    var us := ElementUniqueVertices(b, id, e);
    var xs := [tag] + FileIds(us);
    var code := CodeOf(WrittenKind(id.kind));
    WrittenCodesReadBack(id.kind);
    SplitSpaced(xs);
    var s0 := OfLine(ElementLine(b, id, e, tag));
    assert s0.tokens == NatStrings(xs);
    forall k | 0 <= k < |xs|
      ensures ParseIndex(s0.tokens[k]) == Some(xs[k])
    {
      NatToStringRoundTrip(xs[k]);
      if k > 0 {
        NodeOffsetsInverse(us[k - 1]);
      }
    }
    var s1 := ExtractIndex(s0, 0).1;
    assert s1 == s0.(pos := 1);
    StreamIdsOfNumbers(s1, 0, |us|);
    var r := ElementLineV4(code, id.index + 1, ElementLine(b, id, e, tag));
    forall j | 0 <= j < |us|
      ensures ToUniqueVertex(r.value.vertexIds[j]) == us[j]
    {
      NodeOffsetsInverse(us[j]);
    }
  }

  // ---------------------------------------------------------------------
  // The file
  // ---------------------------------------------------------------------

  /**
   * What the writer needs of the model: every component has its box (and
   * a corner its point), a point per local vertex and its local vertices
   * linked to unique vertices of the model, and its cells have at least
   * as many vertices as the element type they are written as.
   */
  predicate Writable(s: Scene)
  {
    AllDescribed(s) && AllPlacedIn(s, Order(s.brep)) && AllMeshedIn(s.brep, Order(s.brep))
  }

  /** `write_file`: the header, then the entities, nodes and elements sections. */
  function FileText(s: Scene): seq<string>
    requires Writable(s)
  {
    HeaderLines() + EntitiesText(s) + NodesText(s) + ElementsText(s.brep)
  }

  // ---------------------------------------------------------------------
  // The writer
  // ---------------------------------------------------------------------

  /**
   * `MSHOutputImpl`: the model it writes, the lines written so far
   * (`file_`) and the Gmsh tag given to each component (`uuid2gmsh_`).
   */
  class MshWriter {
    const scene: Scene
    var out: seq<string>
    var ids: map<ComponentId, nat>

    constructor(scene: Scene)
      ensures this.scene == scene && out == [] && ids == map[]
    {
      this.scene := scene;
      out := [];
      ids := map[];
    }

    /** `write_header`. */
    method WriteHeader()
      modifies this`out
      ensures out == old(out) + HeaderLines()
    {
      out := out + [MESH_FORMAT, "4.1 0 8", END_MESH_FORMAT];
    }

    /**
     * `write_corners`, `write_lines`, `write_surfaces` and `write_blocks`:
     * one entity line per component of type `t`, boundaries and internals
     * written with the tags their (already numbered) components received;
     * the component is then numbered with its position plus one.
     */
    method WriteKindEntities(t: ComponentType)
      requires KindDescribed(scene, t)
      requires t != Corner ==> Numbered(ids, scene.brep, Below(t).value)
      modifies this`out, this`ids
      ensures out == old(out) + KindEntityLines(scene, t, |Components(scene.brep, t)|)
      ensures Numbered(ids, scene.brep, t) && SameOutside(ids, old(ids), t)
    {
      var n := |Components(scene.brep, t)|;
      var count := 0;
      while count < n
        invariant 0 <= count <= n
        invariant out == old(out) + KindEntityLines(scene, t, count)
        invariant NumberedUpTo(ids, t, count) && SameOutside(ids, old(ids), t)
      {
        KindEntityLinesStep(scene, t, count);
        WriteEntityLine(t, count, old(ids));
        count := count + 1;
      }
    }

    /** One entity line of `write_entities`: component `count` of type `t`, which is then numbered. */
    method WriteEntityLine(t: ComponentType, count: nat, ghost ids0: map<ComponentId, nat>)
      requires KindDescribed(scene, t) && count < |Components(scene.brep, t)|
      requires t != Corner ==> Numbered(ids0, scene.brep, Below(t).value)
      requires NumberedUpTo(ids, t, count) && SameOutside(ids, ids0, t)
      modifies this`out, this`ids
      ensures out == old(out) + [EntityText(scene, ComponentId(t, count))]
      ensures NumberedUpTo(ids, t, count + 1) && SameOutside(ids, ids0, t)
    {
      if t != Corner {
        NumberedOutside(ids, ids0, scene.brep, t);
      }
      var line := WrittenEntityLine(scene, ids, ComponentId(t, count));
      out := out + [line];
      NumberOne(ids, ids0, t, count);
      ids := ids[ComponentId(t, count) := count + 1];
    }

    /** `write_entities`: numbers every component, corners first, then lines, surfaces and blocks. */
    method WriteEntities()
      requires AllDescribed(scene)
      modifies this`out, this`ids
      ensures out == old(out) + EntitiesText(scene)
      ensures forall t :: Numbered(ids, scene.brep, t)
    {
      var b := scene.brep;
      out := out + [ENTITIES, CountsLine(b)];
      ghost var out0 := out;
      WriteKindEntities(Corner);
      ghost var ids1 := ids;
      WriteKindEntities(Line);
      ghost var ids2 := ids;
      WriteKindEntities(Surface);
      ghost var ids3 := ids;
      WriteKindEntities(Block);
      NumberingComposes(b, ids1, ids2, ids3, ids);
      out := out + [END_ENTITIES];
      EntitiesTextParts(scene, old(out), out0, out);
    }

    /** The first loop of `write_component_nodes`: the local vertices whose unique vertex is not yet exported. */
    static method FreshVertices(u: seq<nat>, exported: array<bool>) returns (toExport: seq<nat>)
      requires forall v | 0 <= v < |u| :: u[v] < exported.Length
      ensures toExport == Fresh(u, exported[..], |u|)
    {
      ghost var flags := exported[..];
      toExport := [];
      var v := 0;
      while v < |u|
        invariant 0 <= v <= |u| && toExport == Fresh(u, flags, v)
      {
        assert exported[u[v]] == flags[u[v]];
        if !exported[u[v]] {
          toExport := toExport + [v];
        }
        v := v + 1;
      }
    }

    /** The second loop of `write_component_nodes`: the tag of each exported vertex, flagging its unique vertex. */
    method WriteNodeTags(u: seq<nat>, toExport: seq<nat>, exported: array<bool>)
      requires forall j | 0 <= j < |toExport| :: toExport[j] < |u| && u[toExport[j]] < exported.Length
      modifies this`out, exported
      ensures out == old(out) + TagLines(u, toExport)
      ensures exported[..] == Mark(old(exported[..]), TagUids(u, toExport))
    {
      ghost var flags := exported[..];
      ghost var xs := TagUids(u, toExport);
      var j := 0;
      while j < |toExport|
        invariant 0 <= j <= |toExport|
        invariant out == old(out) + TagLines(u, toExport[..j])
        invariant exported[..] == Mark(flags, xs[..j])
      {
        var uid := u[toExport[j]];
        MarkStep(flags, xs, j);
        TagLinesStep(u, toExport, j);
        ghost var before := exported[..];
        exported[uid] := true;
        assert exported[..] == before[uid := true];
        out := out + [NatToString(ToFileId(uid))];
        j := j + 1;
      }
      assert toExport[..j] == toExport && xs[..j] == xs;
    }

    /** The third loop of `write_component_nodes`: the point of each exported vertex. */
    method WriteNodeCoords(points: seq<Coords>, toExport: seq<nat>)
      requires forall j | 0 <= j < |toExport| :: toExport[j] < |points|
      modifies this`out
      ensures out == old(out) + CoordLines(points, toExport)
    {
      var j := 0;
      while j < |toExport|
        invariant 0 <= j <= |toExport|
        invariant out == old(out) + CoordLines(points, toExport[..j])
      {
        CoordLinesStep(points, toExport, j);
        out := out + [CoordsText(points[toExport[j]])];
        j := j + 1;
      }
      assert toExport[..j] == toExport;
    }

    /**
     * `write_component_nodes`: the fresh vertices of component `id` are
     * collected first; the header and their tags are written while their
     * unique vertices are flagged, then their points.
     */
    method WriteComponentNodes(id: ComponentId, exported: array<bool>)
      requires Placed(scene, id) && exported.Length == scene.brep.nbUniqueVertices
      requires Numbered(ids, scene.brep, id.kind)
      modifies this`out, exported
      ensures out == old(out) + NodeBlock(scene, id, old(exported[..]))
      ensures exported[..] == Mark(old(exported[..]), FreshUids(ComponentAt(scene.brep, id).uniqueOf, old(exported[..])))
    {
      var u := ComponentAt(scene.brep, id).uniqueOf;
      ghost var flags := exported[..];
      var toExport := FreshVertices(u, exported);
      assert Lookup(ids, id) == id.index + 1 by {
        assert ComponentId(id.kind, id.index) == id;
      }
      var header := Spaced([Dimension(id.kind), Lookup(ids, id), 0, |toExport|]);
      out := out + [header];
      WriteNodeTags(u, toExport, exported);
      WriteNodeCoords(scene.points[id], toExport);
      NodeBlockParts(scene, id, flags, header, toExport);
      AppendThree(old(out), [header], TagLines(u, toExport), CoordLines(scene.points[id], toExport));
    }

    /**
     * The loops of `write_nodes`: the nodes of the components `cs` in
     * order, sharing the flags `exported`, none of them set at first.
     */
    method WriteComponentsNodes(cs: seq<ComponentId>, exported: array<bool>)
      requires AllPlacedIn(scene, cs) && forall t :: Numbered(ids, scene.brep, t)
      requires exported.Length == scene.brep.nbUniqueVertices && forall x | 0 <= x < exported.Length :: !exported[x]
      modifies this`out, exported
      ensures out == old(out) + NodeBlocks(scene, cs)
    {
      var nb := scene.brep.nbUniqueVertices;
      assert cs[..0] == [];
      assert exported[..] == Flags(UniqueLists(scene.brep, cs[..0]), nb);
      var k := 0;
      while k < |cs|
        invariant 0 <= k <= |cs|
        invariant out == old(out) + NodeBlocks(scene, cs[..k])
        invariant exported[..] == Flags(UniqueLists(scene.brep, cs[..k]), nb)
        invariant ids == old(ids)
        modifies this`out, exported
      {
        NodeStep(scene, cs, k);
        ghost var flags := exported[..];
        WriteComponentNodes(cs[k], exported);
        AppendTwo(old(out), NodeBlocks(scene, cs[..k]), NodeBlock(scene, cs[k], flags));
        k := k + 1;
      }
      assert cs[..k] == cs;
    }

    /**
     * `write_nodes`: the header, then the nodes of the corners, lines,
     * surfaces and blocks in that order, with one flag per unique vertex,
     * initially unset, shared by all of them.
     */
    method WriteNodes()
      requires AllPlacedIn(scene, Order(scene.brep))
      requires forall t :: Numbered(ids, scene.brep, t)
      modifies this`out
      ensures out == old(out) + NodesText(scene)
    {
      var b := scene.brep;
      var order := Order(b);
      var header := [NODES, Spaced(NodesHeader(scene))];
      out := out + header;
      var exported := new bool[b.nbUniqueVertices](_ => false);
      WriteComponentsNodes(order, exported);
      out := out + [END_NODES];
      AppendThree(old(out), header, NodeBlocks(scene, order), [END_NODES]);
    }
    /** `count_elements`: the elements of every component, in the order they are written. */
    method CountElements() returns (total: nat)
      ensures total == TotalElements(scene.brep, Order(scene.brep))
    {
      var b := scene.brep;
      var order := Order(b);
      total := 0;
      var k := 0;
      while k < |order|
        invariant 0 <= k <= |order| && total == TotalElements(b, order[..k])
      {
        TotalStep(b, order, k);
        var c := ComponentAt(b, order[k]);
        total := total + if order[k].kind == Corner then |c.uniqueOf| else |c.cells|;
        k := k + 1;
      }
      assert order[..k] == order;
    }

    /** The inner loop of `write_*_elements`: the node references of element `e` of `id`. */
    static method NodeReferences(b: BRep, id: ComponentId, e: nat) returns (refs: seq<nat>)
      requires Meshed(b, id) && e < ElementCount(b, id)
      ensures refs == FileIds(ElementUniqueVertices(b, id, e))
    {
      var c := ComponentAt(b, id);
      if id.kind == Corner {
        refs := [GMSH_OFFSET_START + c.uniqueOf[e]];
      } else {
        var n := Arity(WrittenKind(id.kind));
        refs := [];
        var v := 0;
        while v < n
          invariant 0 <= v <= n && |refs| == v
          invariant forall j | 0 <= j < v :: refs[j] == ToFileId(c.uniqueOf[c.cells[e].vertices[j]])
        {
          refs := refs + [GMSH_OFFSET_START + c.uniqueOf[c.cells[e].vertices[v]]];
          v := v + 1;
        }
      }
    }

    /**
     * One component of `write_*_elements`: the block header, then one line
     * per element tagged `cur`, `cur` + 1, ...; the tag after the last one
     * is returned.
     */
    method WriteComponentElements(id: ComponentId, first: nat) returns (cur: nat)
      requires Meshed(scene.brep, id) && Numbered(ids, scene.brep, id.kind)
      modifies this`out
      ensures cur == first + ElementCount(scene.brep, id)
      ensures out == old(out) + ElementBlock(scene.brep, id, first)
    {
      var b := scene.brep;
      var n := ElementCount(b, id);
      assert Lookup(ids, id) == id.index + 1 by {
        assert ComponentId(id.kind, id.index) == id;
      }
      var header := Spaced([Dimension(id.kind), Lookup(ids, id), CodeOf(WrittenKind(id.kind)), n]);
      out := out + [header];
      cur := first;
      var e := 0;
      while e < n
        invariant 0 <= e <= n && cur == first + e
        invariant out == old(out) + [header] + ElementLines(b, id, first, e)
      {
        var refs := NodeReferences(b, id, e);
        ElementLinesStep(b, id, first, e);
        AppendTwo(old(out) + [header], ElementLines(b, id, first, e), [Spaced([cur] + refs)]);
        out := out + [Spaced([cur] + refs)];
        cur := cur + 1;
        e := e + 1;
      }
      AppendTwo(old(out), [header], ElementLines(b, id, first, n));
    }

    /**
     * The loops of `write_elements`: the elements of the components `cs`
     * in order, tagged from `first` on; the tag after the last is returned.
     */
    method WriteComponentsElements(cs: seq<ComponentId>, first: nat) returns (cur: nat)
      requires AllMeshedIn(scene.brep, cs) && forall t :: Numbered(ids, scene.brep, t)
      modifies this`out
      ensures cur == first + TotalElements(scene.brep, cs)
      ensures out == old(out) + ElementBlocks(scene.brep, cs, first)
    {
      var b := scene.brep;
      assert cs[..0] == [];
      cur := first;
      var k := 0;
      while k < |cs|
        invariant 0 <= k <= |cs|
        invariant cur == first + TotalElements(b, cs[..k])
        invariant out == old(out) + ElementBlocks(b, cs[..k], first)
      {
        ElementStep(b, cs, first, k);
        ghost var done := ElementBlocks(b, cs[..k], first);
        ghost var block := ElementBlock(b, cs[k], cur);
        cur := WriteComponentElements(cs[k], cur);
        assert out == old(out) + done + block;
        AppendTwo(old(out), done, block);
        k := k + 1;
      }
      assert cs[..k] == cs;
    }

    /**
     * `write_elements`: the header declares `count_elements` elements
     * tagged from 1; the element tags then run on across the corners,
     * lines, surfaces and blocks, and end one past the declared count.
     */
    method WriteElements() returns (last: nat)
      requires AllMeshedIn(scene.brep, Order(scene.brep))
      requires forall t :: Numbered(ids, scene.brep, t)
      modifies this`out
      ensures out == old(out) + ElementsText(scene.brep)
      ensures last == GMSH_OFFSET_START + TotalElements(scene.brep, Order(scene.brep))
    {
      var b := scene.brep;
      var order := Order(b);
      var total := CountElements();
      var header := [ELEMENTS, Spaced([|order|, total, GMSH_OFFSET_START, total])];
      out := out + header;
      last := WriteComponentsElements(order, GMSH_OFFSET_START);
      out := out + [END_ELEMENTS];
      AppendThree(old(out), header, ElementBlocks(b, order, GMSH_OFFSET_START), [END_ELEMENTS]);
    }
    /** `write_file`: the header, then the entities, nodes and elements sections. */
    method WriteFile()
      requires Writable(scene)
      modifies this`out, this`ids
      ensures out == old(out) + FileText(scene)
    {
      WriteHeader();
      WriteEntities();
      WriteNodes();
      var _ := WriteElements();
      AppendThree(old(out), HeaderLines(), EntitiesText(scene), NodesText(scene));
      AppendTwo(old(out), HeaderLines() + EntitiesText(scene) + NodesText(scene), ElementsText(scene.brep));
    }
  }
}
