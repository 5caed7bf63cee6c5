/**
 * `MSHInputImpl` of src/geode/io/model/msh_input.cpp: a reader object
 * whose fields the section readers fill. The file is its list of lines and
 * `cursor` the position of the `std::ifstream` (the next line `getline`
 * returns).
 *
 * Each section reader first walks the lines of its section with the line
 * loops below, which return what they read and the line where they
 * stopped, then records the result in the reader (`create_corners`,
 * `create_lines`, ..., `add_element`). Reading a line never changes the
 * model and recording never fails except on a missing bounding entity,
 * so this gives the model and the first error the interleaved loops of
 * the source give. An exception is a `Fail` outcome, after which the
 * reader is not used again.
 */
module MshInput {
  import opened Wrappers
  import opened Text
  import opened Streams
  import opened BRepModel
  import opened MshCommon
  import opened MshLines
  import opened MshDuplicates
  import opened MshTopology

  /** The lines a reader that has read `n` lines still has to read. */
  function After(lines: seq<string>, n: nat): seq<string>
  {
    if n <= |lines| then lines[n..] else []
  }

  // ---------------------------------------------------------------------
  // read_file
  // ---------------------------------------------------------------------

  /** What the reader holds between sections: the model, the tag map, the nodes and the next line. */
  datatype Reading = Reading(brep: BRep, idMap: IdMap, nodes: seq<Coords>, cursor: nat)

  /** The entity section, read only from a version 4 file whose section names include "$Entities". */
  function EntityStage(lines: seq<string>, version: nat, sections: seq<string>, st: Reading): (r: Result<Reading>)
    requires Consistent(st.brep, st.idMap)
    ensures r.Ok? ==> Consistent(r.value.brep, r.value.idMap)
    ensures r.Ok? ==> r.value.nodes == st.nodes && r.value.brep.nbUniqueVertices == st.brep.nbUniqueVertices
    ensures !(version == 4 && ENTITIES in sections) ==> r == Ok(st)
  {
    if version == 4 && ENTITIES in sections then
      match EntitySection(lines, st.cursor, st.brep, st.idMap)
      case Err(m) => Err(m)
      case Ok((b, m, c)) =>
        EntitySectionConsistent(lines, st.cursor, st.brep, st.idMap);
        Ok(Reading(b, m, st.nodes, c))
    else Ok(st)
  }

  /** The node section of the file's version: the nodes, and as many new unique vertices as it declares. */
  function NodeStage(lines: seq<string>, version: nat, st: Reading): (r: Result<Reading>)
    ensures r.Ok? ==> r.value.idMap == st.idMap && st.nodes <= r.value.nodes
    ensures r.Ok? ==> r.value.brep == st.brep.(nbUniqueVertices := r.value.brep.nbUniqueVertices)
  {
    if version == 2 then
      match NodeSectionV2(lines, st.cursor)
      case Err(m) => Err(m)
      case Ok((ps, c)) =>
        Ok(Reading(st.brep.(nbUniqueVertices := st.brep.nbUniqueVertices + |ps|), st.idMap, st.nodes + ps, c))
    else
      match NodeSectionV4(lines, st.cursor)
      case Err(m) => Err(m)
      case Ok((ps, c, n)) =>
        Ok(Reading(st.brep.(nbUniqueVertices := st.brep.nbUniqueVertices + n), st.idMap, st.nodes + ps, c))
  }

  /** The element section of the file's version, every element added to the model. */
  function ElementStage(lines: seq<string>, version: nat, st: Reading): (r: Result<Reading>)
    requires Consistent(st.brep, st.idMap)
    ensures r.Ok? ==> Consistent(r.value.brep, r.value.idMap)
    ensures r.Ok? ==> r.value.nodes == st.nodes
    ensures r.Ok? ==> r.value.brep.nbUniqueVertices == st.brep.nbUniqueVertices
    ensures r.Ok? ==> r.value.brep.boundaries == st.brep.boundaries
  {
    if version == 2 then
      match ElementSectionV2(lines, st.cursor)
      case Err(m) => Err(m)
      case Ok((es, c)) =>
        ElementSectionV2Shaped(lines, st.cursor);
        WithElements(st, es, c)
    else
      match ElementSectionV4(lines, st.cursor)
      case Err(m) => Err(m)
      case Ok((es, c)) =>
        ElementSectionV4Shaped(lines, st.cursor);
        WithElements(st, es, c)
  }

  /** The elements `es` added to the model, the reader then at line `c`. */
  function WithElements(st: Reading, es: seq<GmshElement>, c: nat): (r: Result<Reading>)
    requires Consistent(st.brep, st.idMap) && AllShaped(es)
    ensures r.Ok? && Consistent(r.value.brep, r.value.idMap)
    ensures r.value.nodes == st.nodes && r.value.cursor == c
    ensures r.value.brep.nbUniqueVertices == st.brep.nbUniqueVertices
    ensures r.value.brep.boundaries == st.brep.boundaries
  {
    ApplyElementsValid(st.brep, st.idMap, es);
    var (b, m) := ApplyElements(st.brep, st.idMap, es);
    Ok(Reading(b, m, st.nodes, c))
  }

  /**
   * `read_file`: the entity section when there is one, then the nodes,
   * then the elements. The first failure is the result.
   */
  function ReadSections(lines: seq<string>, version: nat, sections: seq<string>, st: Reading): (r: Result<Reading>)
    requires Consistent(st.brep, st.idMap)
    ensures r.Ok? ==> Consistent(r.value.brep, r.value.idMap)
  {
    match EntityStage(lines, version, sections, st)
    case Err(m) => Err(m)
    case Ok(s1) =>
      match NodeStage(lines, version, s1)
      case Err(m) => Err(m)
      case Ok(s2) =>
        UniqueVerticesKeepConsistent(s1.brep, s1.idMap, s2.brep.nbUniqueVertices);
        ElementStage(lines, version, s2)
  }

  /** Creating unique vertices changes no component, no tag and no relation. */
  lemma UniqueVerticesKeepConsistent(b: BRep, idMap: IdMap, n: nat)
    requires Consistent(b, idMap)
    ensures Consistent(b.(nbUniqueVertices := n), idMap)
  {
    var b' := b.(nbUniqueVertices := n);
    assert forall t :: Components(b', t) == Components(b, t);
  }

  // ---------------------------------------------------------------------
  // build_geometry
  // ---------------------------------------------------------------------

  /** Every local vertex of `c` is linked to one of the `n` nodes. */
  predicate Covered(c: Component, n: nat)
  {
    forall v | 0 <= v < |c.uniqueOf| :: c.uniqueOf[v] < n
  }

  predicate KindCovered(cs: seq<Component>, n: nat)
  {
    forall i | 0 <= i < |cs| :: Covered(cs[i], n)
  }

  /** Every local vertex of the model is linked to one of the `n` nodes. */
  predicate NodesCover(b: BRep, n: nat)
  {
    KindCovered(b.corners, n) && KindCovered(b.lines, n) && KindCovered(b.surfaces, n) && KindCovered(b.blocks, n)
  }

  /** Every component has a local vertex 0. */
  predicate AllPlaced(cs: seq<Component>)
  {
    forall i | 0 <= i < |cs| :: |cs[i].uniqueOf| > 0
  }

  /**
   * The points `set_point` gives the mesh of a component of type `t`: a
   * corner only its vertex 0, any other component each of its vertices,
   * the node of the vertex's unique vertex.
   */
  function MeshPoints(t: ComponentType, c: Component, nodes: seq<Coords>): (r: seq<Coords>)
    requires Covered(c, |nodes|) && (t == Corner ==> |c.uniqueOf| > 0)
  {
    if t == Corner then [nodes[c.uniqueOf[0]]]
    else seq(|c.uniqueOf|, v requires 0 <= v < |c.uniqueOf| => nodes[c.uniqueOf[v]])
  }

  /** The points of every component of `cs`, of type `t`. */
  function KindGeometry(t: ComponentType, cs: seq<Component>, nodes: seq<Coords>): map<ComponentId, seq<Coords>>
    requires KindCovered(cs, |nodes|) && (t == Corner ==> AllPlaced(cs))
  {
    map i | 0 <= i < |cs| :: ComponentId(t, i) := MeshPoints(t, cs[i], nodes)
  }

  /** The points of every component of the model. */
  function Geometry(b: BRep, nodes: seq<Coords>): (r: map<ComponentId, seq<Coords>>)
    requires NodesCover(b, |nodes|) && AllPlaced(b.corners)
  {
    KindGeometry(Corner, b.corners, nodes) + KindGeometry(Line, b.lines, nodes)
      + KindGeometry(Surface, b.surfaces, nodes) + KindGeometry(Block, b.blocks, nodes)
  }

  /** Filtering keeps the unique vertices a component is linked to. */
  lemma FilteredCovered(c: Component, r: Component, n: nat)
    requires Filtered(c, r) && Covered(c, n)
    ensures Covered(r, n)
  {
    DedupElements(c.uniqueOf);
    forall v | 0 <= v < |r.uniqueOf|
      ensures r.uniqueOf[v] < n
    {
      assert r.uniqueOf[v] in c.uniqueOf;
    }
  }

  /**
   * After filtering and `set_point`, a component has no two vertices on
   * one unique vertex, as many vertices as distinct unique vertices, and
   * every cell corner is placed at the node of the unique vertex it had.
   */
  lemma FilteredGeometry(t: ComponentType, c: Component, r: Component, nodes: seq<Coords>)
    requires t != Corner && WellFormed(c) && Filtered(c, r) && Covered(c, |nodes|)
    ensures Covered(r, |nodes|)
    ensures NoDuplicates(r.uniqueOf) && |r.uniqueOf| == |Elements(c.uniqueOf)|
    ensures forall i, k | 0 <= i < |c.cells| && 0 <= k < |c.cells[i].vertices| ::
      MeshPoints(t, r, nodes)[r.cells[i].vertices[k]] == nodes[c.uniqueOf[c.cells[i].vertices[k]]]
  {
    FilteredCovered(c, r, |nodes|);
    DedupProperties(c.uniqueOf);
  }

  /** Each component of `rs` is the filtered component of `cs` at the same position. */
  predicate AllFiltered(cs: seq<Component>, rs: seq<Component>)
  {
    |rs| == |cs| && forall i | 0 <= i < |cs| :: Filtered(cs[i], rs[i])
  }

  /** The model is well formed iff every component of every type is. */
  lemma KindsWellFormed(b: BRep)
    ensures AllWellFormed(b) <==> (
      && (forall i | 0 <= i < |b.corners| :: WellFormed(b.corners[i]))
      && (forall i | 0 <= i < |b.lines| :: WellFormed(b.lines[i]))
      && (forall i | 0 <= i < |b.surfaces| :: WellFormed(b.surfaces[i]))
      && (forall i | 0 <= i < |b.blocks| :: WellFormed(b.blocks[i])))
  {
    assert Components(b, Corner) == b.corners && Components(b, Line) == b.lines;
    assert Components(b, Surface) == b.surfaces && Components(b, Block) == b.blocks;
  }

  lemma FilterAllCovered(cs: seq<Component>, rs: seq<Component>, n: nat)
    requires AllFiltered(cs, rs) && KindCovered(cs, n)
    ensures KindCovered(rs, n)
  {
    forall i | 0 <= i < |rs|
      ensures Covered(rs[i], n)
    {
      FilteredCovered(cs[i], rs[i], n);
    }
  }

  /** `filter_duplicated_vertices` on each component of a list, in order. */
  method FilterAll(cs: seq<Component>) returns (rs: seq<Component>)
    requires forall i | 0 <= i < |cs| :: WellFormed(cs[i])
    ensures AllFiltered(cs, rs)
  {
    rs := [];
    var i := 0;
    while i < |cs|
      invariant i <= |cs| && |rs| == i
      invariant forall j | 0 <= j < i :: Filtered(cs[j], rs[j])
    {
      var r := FilterDuplicatedVertices(cs[i]);
      rs := rs + [r];
      i := i + 1;
    }
  }

  /** The `set_point` loop over the vertices of one component. */
  method ComponentPoints(t: ComponentType, c: Component, nodes: seq<Coords>) returns (ps: seq<Coords>)
    requires Covered(c, |nodes|) && (t == Corner ==> |c.uniqueOf| > 0)
    ensures ps == MeshPoints(t, c, nodes)
  {
    if t == Corner {
      return [nodes[c.uniqueOf[0]]];
    }
    ps := [];
    var v := 0;
    while v < |c.uniqueOf|
      invariant v <= |c.uniqueOf| && |ps| == v
      invariant forall w | 0 <= w < v :: ps[w] == nodes[c.uniqueOf[w]]
    {
      ps := ps + [nodes[c.uniqueOf[v]]];
      v := v + 1;
    }
  }

  /** `build_corners`, `build_lines`, ...: the points of every component of one type. */
  method PlaceKind(t: ComponentType, cs: seq<Component>, nodes: seq<Coords>) returns (m: map<ComponentId, seq<Coords>>)
    requires KindCovered(cs, |nodes|) && (t == Corner ==> AllPlaced(cs))
    ensures m == KindGeometry(t, cs, nodes)
  {
    m := map[];
    var i := 0;
    while i < |cs|
      invariant i <= |cs|
      invariant forall id | id in m :: id.kind == t && id.index < i
      invariant forall j | 0 <= j < i :: ComponentId(t, j) in m && m[ComponentId(t, j)] == MeshPoints(t, cs[j], nodes)
    {
      var ps := ComponentPoints(t, cs[i], nodes);
      m := m[ComponentId(t, i) := ps];
      i := i + 1;
    }
    KindGeometryEq(t, cs, nodes, m);
  }

  lemma KindGeometryEq(t: ComponentType, cs: seq<Component>, nodes: seq<Coords>, m: map<ComponentId, seq<Coords>>)
    requires KindCovered(cs, |nodes|) && (t == Corner ==> AllPlaced(cs))
    requires forall id | id in m :: id.kind == t && id.index < |cs|
    requires forall j | 0 <= j < |cs| :: ComponentId(t, j) in m && m[ComponentId(t, j)] == MeshPoints(t, cs[j], nodes)
    ensures m == KindGeometry(t, cs, nodes)
  {
    var g := KindGeometry(t, cs, nodes);
    assert forall id | id in m :: id == ComponentId(t, id.index);
    assert m.Keys == g.Keys;
  }

  // ---------------------------------------------------------------------
  // Line loops
  // ---------------------------------------------------------------------

  /** `go_to_section`: the index of the first line from `from` that starts with `header`. */
  method FindSection(lines: seq<string>, from: nat, header: string) returns (r: Option<nat>)
    ensures r == FindLine(lines, from, header)
  {
    var i := from;
    while i < |lines|
      invariant FindLine(lines, i, header) == FindLine(lines, from, header)
      decreases |lines| - i
    {
      if StartsWith(lines[i], header) {
        return Some(i);
      }
      i := i + 1;
    }
    return None;
  }

  /** The corner lines of `create_corners`: one tag per line. */
  method ReadCornerIds(lines: seq<string>, start: nat, n: nat) returns (ids: seq<nat>)
    ensures ids == CornerIds(lines, start, n)
  {
    ids := [];
    var k := 0;
    while k < n
      invariant k <= n && ids == CornerIds(lines, start, k)
    {
      ids := ids + [Fields(LineAt(lines, start + k), 1)[0]];
      k := k + 1;
    }
  }

  /** The lines of `create_lines`, `create_surfaces` or `create_blocks`: a tag and its bounding tags per line. */
  method ReadEntityLines(lines: seq<string>, start: nat, n: nat) returns (es: seq<(Index, seq<nat>)>)
    ensures es == EntityLines(lines, start, n)
  {
    es := [];
    var k := 0;
    while k < n
      invariant k <= n && es == EntityLines(lines, start, k)
    {
      es := es + [EntityLine(LineAt(lines, start + k))];
      k := k + 1;
    }
  }

  /**
   * `read_node_group`: the header "dim entity parametric nb", `nb` lines of
   * node tags passed over, then `nb` lines of coordinates.
   */
  method ReadNodeGroup(lines: seq<string>, start: nat) returns (r: Result<(seq<Coords>, nat)>)
    ensures r == NodeGroupV4(lines, start)
  {
    var h := Fields(LineAt(lines, start), 4);
    if h[2] != 0 {
      return Err("Parametric node coordinates is not supported for now");
    }
    var nb: nat := h[3];
    var pos := start + 1;
    var k := 0;
    while k < nb
      invariant k <= nb && pos == start + 1 + k
    {
      pos := pos + 1;
      k := k + 1;
    }
    var ps := [];
    k := 0;
    while k < nb
      invariant k <= nb && pos == start + 1 + nb + k
      invariant ps == seq(k, j requires 0 <= j < k => Coordinates(OfLine(LineAt(lines, start + 1 + nb + j))))
    {
      ps := ps + [Coordinates(OfLine(LineAt(lines, pos)))];
      pos := pos + 1;
      k := k + 1;
    }
    r := Ok((ps, pos));
  }

  /** The `n` node groups of a version 4 section, from line `start`. */
  method ReadNodeGroups(lines: seq<string>, start: nat, n: nat) returns (r: Result<(seq<Coords>, nat)>)
    ensures r == NodeGroupsV4(lines, start, n)
  {
    var ps := [];
    var pos := start;
    var g := 0;
    while g < n
      invariant g <= n && NodeGroupsV4(lines, start, g) == Ok((ps, pos))
    {
      var group := ReadNodeGroup(lines, pos);
      if group.Err? {
        NodeGroupsErrStays(lines, start, g + 1, n);
        return Err(group.message);
      }
      ps := ps + group.value.0;
      pos := group.value.1;
      g := g + 1;
    }
    r := Ok((ps, pos));
  }

  /** `add_element` for each element in turn. */
  method AddAll(b: BRep, m: IdMap, es: seq<GmshElement>) returns (b': BRep, m': IdMap)
    requires IdMapValid(b, m)
    ensures (b', m') == ApplyElements(b, m, es)
  {
    b', m' := b, m;
    var k := 0;
    while k < |es|
      invariant k <= |es| && (b', m') == ApplyElements(b, m, es[..k])
    {
      ApplyElementsSnoc(b, m, es[..k], es[k]);
      assert es[..k + 1] == es[..k] + [es[k]];
      b', m' := AddElement(b', m', es[k]);
      k := k + 1;
    }
    assert es[..k] == es;
  }

  // ---------------------------------------------------------------------
  // The reader
  // ---------------------------------------------------------------------

  class MshReader {
    const lines: seq<string>
    var cursor: nat
    var version: nat
    var sections: seq<string>
    var nodes: seq<Coords>
    var idMap: IdMap
    var brep: BRep
    /** The points given to each component mesh by `build_geometry`. */
    var points: map<ComponentId, seq<Coords>>

    constructor(lines: seq<string>)
      ensures this.lines == lines && cursor == 0 && version == 2 && sections == [] && nodes == []
      ensures idMap == map[] && brep == EmptyBRep && points == map[]
    {
      this.lines := lines;
      cursor := 0;
      version := 2;
      sections := [];
      nodes := [];
      idMap := map[];
      brep := EmptyBRep;
      points := map[];
    }

    /**
     * `first_read`: a second reader over the same file reads the header,
     * sets the version, then collects the section names up to the end of
     * the file. The main reader does not move.
     */
    method FirstRead() returns (r: Outcome)
      modifies this`version, this`sections
      ensures r.Pass? <==> Header(lines).Ok?
      ensures r.Pass? ==> version == Header(lines).value
      ensures r.Pass? ==> sections == old(sections) + SectionNames(After(lines, 3))
    {
      if !StartsWith(LineAt(lines, 0), MESH_FORMAT) {
        return Fail("Line should starts with \"$MeshFormat\"");
      }
      var v := MshVersion(LineAt(lines, 1));
      if v.Err? {
        return Fail(v.message);
      }
      version := v.value;
      if !StartsWith(LineAt(lines, 2), END_MESH_FORMAT) {
        return Fail("Line should starts with \"$EndMeshFormat\"");
      }
      var i := 3;
      while i < |lines|
        invariant i >= 3 && version == v.value
        invariant i < |lines| ==> sections == old(sections) + SectionNames(lines[3..i])
        invariant i >= |lines| ==> sections == old(sections) + SectionNames(After(lines, 3))
        decreases |lines| - i
      {
        assert lines[3..i + 1][..i - 3] == lines[3..i];
        if IsSectionName(lines[i]) {
          sections := sections + [lines[i]];
        }
        if i + 1 == |lines| {
          assert lines[3..i + 1] == After(lines, 3);
        }
        i := i + 1;
      }
      assert Header(lines) == v;
      return Pass;
    }

    /**
     * `read_file`: the sections of the file's version, as `ReadSections`
     * reads them. The header check has left only versions 2 and 4.
     */
    method ReadFile() returns (r: Outcome)
      requires version == 2 || version == 4
      requires Consistent(brep, idMap)
      modifies this`cursor, this`nodes, this`brep, this`idMap
      ensures var e := ReadSections(lines, version, sections, Reading(old(brep), old(idMap), old(nodes), old(cursor)));
        && (r.Pass? <==> e.Ok?)
        && (r.Pass? ==> Reading(brep, idMap, nodes, cursor) == e.value)
    {
      r := ReadEntityStage();
      if r.Fail? {
        return;
      }
      var s1 := Reading(brep, idMap, nodes, cursor);
      r := ReadNodeStage();
      if r.Fail? {
        return;
      }
      UniqueVerticesKeepConsistent(s1.brep, s1.idMap, brep.nbUniqueVertices);
      r := ReadElementStage();
    }

    /** The entity section step of `read_file`. */
    method ReadEntityStage() returns (r: Outcome)
      requires Consistent(brep, idMap)
      modifies this`cursor, this`brep, this`idMap
      ensures var e := EntityStage(lines, version, sections, Reading(old(brep), old(idMap), nodes, old(cursor)));
        && (r.Pass? <==> e.Ok?)
        && (r.Pass? ==> Reading(brep, idMap, nodes, cursor) == e.value)
    {
      if version == 4 && ENTITIES in sections {
        r := ReadEntitySection();
      } else {
        r := Pass;
      }
    }

    /** The node section step of `read_file`. */
    method ReadNodeStage() returns (r: Outcome)
      modifies this`cursor, this`nodes, this`brep
      ensures var e := NodeStage(lines, version, Reading(old(brep), idMap, old(nodes), old(cursor)));
        && (r.Pass? <==> e.Ok?)
        && (r.Pass? ==> Reading(brep, idMap, nodes, cursor) == e.value)
    {
      if version == 2 {
        r := ReadNodeSectionV2();
      } else {
        r := ReadNodeSectionV4();
      }
    }

    /** The element section step of `read_file`. */
    method ReadElementStage() returns (r: Outcome)
      requires Consistent(brep, idMap)
      modifies this`cursor, this`brep, this`idMap
      ensures var e := ElementStage(lines, version, Reading(old(brep), old(idMap), nodes, old(cursor)));
        && (r.Pass? <==> e.Ok?)
        && (r.Pass? ==> Reading(brep, idMap, nodes, cursor) == e.value)
    {
      if version == 2 {
        r := ReadElementSectionV2();
      } else {
        r := ReadElementSectionV4();
      }
    }

    /** `read_entity_section`: the whole entity section, as `EntitySection` reads it. */
    method ReadEntitySection() returns (r: Outcome)
      modifies this`cursor, this`brep, this`idMap
      ensures var e := EntitySection(lines, old(cursor), old(brep), old(idMap));
        && (r.Pass? <==> e.Ok?)
        && (r.Pass? ==> brep == e.value.0 && idMap == e.value.1 && cursor == e.value.2)
    {
      r := ReadEntitiesAfter(FindLine(lines, cursor, ENTITIES));
    }

    method ReadEntitiesAfter(h: Option<nat>) returns (r: Outcome)
      modifies this`cursor, this`brep, this`idMap
      ensures var e := EntitiesAfter(lines, h, old(brep), old(idMap));
        && (r.Pass? <==> e.Ok?)
        && (r.Pass? ==> brep == e.value.0 && idMap == e.value.1 && cursor == e.value.2)
    {
      if h.None? {
        return Fail("Cannot find the section $Entities");
      }
      var t := ParseEntities(lines, h.value + 1);
      assert EntitiesAfter(lines, h, brep, idMap) == BuildEntities(brep, idMap, t);
      r := CreateListed(t);
    }

    /**
     * `create_corners`, `create_lines`, `create_surfaces` and
     * `create_blocks` on the lines of the listing `t`, then the
     * "$EndEntities" check.
     */
    method CreateListed(t: EntityListing) returns (r: Outcome)
      requires NoCornerGroup(t.groups)
      modifies this`cursor, this`brep, this`idMap
      ensures var e := BuildEntities(old(brep), old(idMap), t);
        && (r.Pass? <==> e.Ok?)
        && (r.Pass? ==> brep == e.value.0 && idMap == e.value.1 && cursor == e.value.2)
    {
      CreateCorners(t.cornerIds);
      r := CreateGroups(t.groups);
      if r.Fail? {
        return;
      }
      if !t.closed {
        return Fail("Line should starts with \"$EndEntities\"");
      }
      cursor := t.end + 1;
    }

    /** `create_corners`: one new corner per tag, recorded under that tag. */
    method CreateCorners(ids: seq<nat>)
      modifies this`brep, this`idMap
      ensures (brep, idMap) == CornersFrom(old(brep), old(idMap), ids)
    {
      var k := 0;
      while k < |ids|
        invariant k <= |ids| && (brep, idMap) == CornersFrom(old(brep), old(idMap), ids[..k])
      {
        CornersFromSnoc(old(brep), old(idMap), ids[..k], ids[k]);
        assert ids[..k + 1] == ids[..k] + [ids[k]];
        idMap := idMap[GmshElementID(Corner, ids[k]) := |brep.corners|];
        brep := brep.(corners := brep.corners + [EmptyComponent]);
        k := k + 1;
      }
      assert ids[..k] == ids;
    }

    /** `create_lines`, then `create_surfaces`, then `create_blocks`; the first that throws ends the section. */
    method CreateGroups(groups: seq<(ComponentType, seq<(Index, seq<nat>)>)>) returns (r: Outcome)
      requires NoCornerGroup(groups)
      modifies this`brep, this`idMap
      ensures var e := BuildRuns(old(brep), old(idMap), groups);
        && (r.Pass? <==> e.Ok?)
        && (r.Pass? ==> brep == e.value.0 && idMap == e.value.1)
      decreases |groups|
    {
      if groups == [] {
        return Pass;
      }
      r := CreateEntities(groups[0].0, groups[0].1);
      if r.Fail? {
        return;
      }
      r := CreateGroups(groups[1..]);
    }

    /**
     * `create_lines`, `create_surfaces` or `create_blocks`: one new
     * component per line, then one boundary relation per bounding tag,
     * looked up with `at`, which throws on a tag not recorded.
     */
    method CreateEntities(kind: ComponentType, es: seq<(Index, seq<nat>)>) returns (r: Outcome)
      requires kind != Corner
      modifies this`brep, this`idMap
      ensures var e := EntitiesFrom(old(brep), old(idMap), kind, es);
        && (r.Pass? <==> e.Ok?)
        && (r.Pass? ==> brep == e.value.0 && idMap == e.value.1)
    {
      var k := 0;
      while k < |es|
        invariant k <= |es|
        invariant var e := EntitiesFrom(old(brep), old(idMap), kind, es[..k]);
          e.Ok? && brep == e.value.0 && idMap == e.value.1
      {
        EntitiesFromStep(old(brep), old(idMap), kind, es, k);
        var ok := AddBoundedEntity(kind, es[k].0, es[k].1);
        if !ok {
          EntitiesFromErrStays(old(brep), old(idMap), kind, es, k + 1);
          return Fail(KEY_NOT_FOUND);
        }
        k := k + 1;
      }
      assert es[..k] == es;
      r := Pass;
    }

    /** The component of one entity line and its boundary relations. */
    method AddBoundedEntity(kind: ComponentType, id: nat, bounds: seq<nat>) returns (ok: bool)
      requires kind != Corner
      modifies this`brep, this`idMap
      ensures var a := AddEntity(old(brep), old(idMap), kind, id, bounds);
        && (ok <==> a.Ok?)
        && (ok ==> brep == a.value.0 && idMap == a.value.1)
    {
      var bk := BoundaryKind(kind);
      var m := idMap;
      var c := |Components(brep, kind)|;
      var added := WithComponents(brep, kind, Components(brep, kind) + [EmptyComponent]);
      brep := added;
      idMap := idMap[GmshElementID(kind, id) := c];
      var j := 0;
      while j < |bounds|
        invariant j <= |bounds|
        invariant AllKnown(m, bk, bounds[..j])
        invariant brep == added.(boundaries := old(brep).boundaries + BoundaryRelations(m, kind, c, bounds[..j]))
        invariant idMap == m[GmshElementID(kind, id) := c]
      {
        var key := GmshElementID(bk, bounds[j]);
        if key !in idMap {
          AllKnownIff(m, bk, bounds);
          return false;
        }
        assert key in m;
        assert bounds[..j + 1][..j] == bounds[..j];
        assert AllKnown(m, bk, bounds[..j + 1]);
        brep := brep.(boundaries := brep.boundaries + {(ComponentId(bk, idMap[key]), ComponentId(kind, c))});
        assert BoundaryRelations(m, kind, c, bounds[..j + 1])
          == BoundaryRelations(m, kind, c, bounds[..j]) + {(ComponentId(bk, m[key]), ComponentId(kind, c))};
        j := j + 1;
      }
      assert bounds[..j] == bounds;
      ok := true;
    }

    /** `read_node_section_v2`: the nodes, then one unique vertex per node. */
    method ReadNodeSectionV2() returns (r: Outcome)
      modifies this`cursor, this`nodes, this`brep
      ensures var s := NodeSectionV2(lines, old(cursor));
        && (r.Pass? <==> s.Ok?)
        && (r.Pass? ==> (
          && nodes == old(nodes) + s.value.0 && cursor == s.value.1
          && brep == old(brep).(nbUniqueVertices := old(brep).nbUniqueVertices + |s.value.0|)))
    {
      var s := NodeSectionV2(lines, cursor);
      if s.Err? {
        return Fail(s.message);
      }
      nodes := nodes + s.value.0;
      cursor := s.value.1;
      brep := brep.(nbUniqueVertices := brep.nbUniqueVertices + |s.value.0|);
      r := Pass;
    }

    /**
     * `read_node_section_v4`: the nodes of every group appended in file
     * order, their tags skipped, then the declared number of unique vertices.
     */
    method ReadNodeSectionV4() returns (r: Outcome)
      modifies this`cursor, this`nodes, this`brep
      ensures var s := NodeSectionV4(lines, old(cursor));
        && (r.Pass? <==> s.Ok?)
        && (r.Pass? ==> (
          && nodes == old(nodes) + s.value.0 && cursor == s.value.1
          && brep == old(brep).(nbUniqueVertices := old(brep).nbUniqueVertices + s.value.2)))
    {
      var s := NodeSectionV4(lines, cursor);
      if s.Err? {
        return Fail(s.message);
      }
      nodes := nodes + s.value.0;
      cursor := s.value.1;
      brep := brep.(nbUniqueVertices := brep.nbUniqueVertices + s.value.2);
      r := Pass;
    }

    /** `read_element_section_v2`: every element read is added to the model. */
    method ReadElementSectionV2() returns (r: Outcome)
      requires IdMapValid(brep, idMap)
      modifies this`cursor, this`brep, this`idMap
      ensures var s := ElementSectionV2(lines, old(cursor));
        && (r.Pass? <==> s.Ok?)
        && (r.Pass? ==> (
          && (brep, idMap) == ApplyElements(old(brep), old(idMap), s.value.0)
          && cursor == s.value.1))
    {
      var s := ElementSectionV2(lines, cursor);
      if s.Err? {
        return Fail(s.message);
      }
      AddElements(s.value.0);
      cursor := s.value.1;
      r := Pass;
    }

    /** `read_element_section_v4`: every element of every group is added to the model. */
    method ReadElementSectionV4() returns (r: Outcome)
      requires IdMapValid(brep, idMap)
      modifies this`cursor, this`brep, this`idMap
      ensures var s := ElementSectionV4(lines, old(cursor));
        && (r.Pass? <==> s.Ok?)
        && (r.Pass? ==> (
          && (brep, idMap) == ApplyElements(old(brep), old(idMap), s.value.0)
          && cursor == s.value.1))
    {
      var s := ElementSectionV4(lines, cursor);
      if s.Err? {
        return Fail(s.message);
      }
      AddElements(s.value.0);
      cursor := s.value.1;
      r := Pass;
    }

    /** `add_element` for each element in turn. */
    method AddElements(es: seq<GmshElement>)
      requires IdMapValid(brep, idMap)
      modifies this`brep, this`idMap
      ensures (brep, idMap) == ApplyElements(old(brep), old(idMap), es)
    {
      brep, idMap := AddAll(brep, idMap, es);
    }

    /**
     * `build_geometry`: the duplicated vertices of every line, surface and
     * block are filtered, and every component mesh gets its points.
     */
    method BuildGeometry()
      requires AllWellFormed(brep) && NodesCover(brep, |nodes|) && AllPlaced(brep.corners)
      modifies this`brep, this`points
      ensures brep.corners == old(brep.corners)
      ensures brep.nbUniqueVertices == old(brep.nbUniqueVertices) && brep.boundaries == old(brep.boundaries)
      ensures AllFiltered(old(brep.lines), brep.lines) && AllFiltered(old(brep.surfaces), brep.surfaces)
      ensures AllFiltered(old(brep.blocks), brep.blocks)
      ensures AllWellFormed(brep) && NodesCover(brep, |nodes|)
      ensures points == Geometry(brep, nodes)
    {
      KindsWellFormed(brep);
      var cornerPoints := PlaceKind(Corner, brep.corners, nodes);
      var ls := FilterAll(brep.lines);
      FilterAllCovered(brep.lines, ls, |nodes|);
      var linePoints := PlaceKind(Line, ls, nodes);
      var ss := FilterAll(brep.surfaces);
      FilterAllCovered(brep.surfaces, ss, |nodes|);
      var surfacePoints := PlaceKind(Surface, ss, nodes);
      var bs := FilterAll(brep.blocks);
      FilterAllCovered(brep.blocks, bs, |nodes|);
      var blockPoints := PlaceKind(Block, bs, nodes);
      brep := brep.(lines := ls, surfaces := ss, blocks := bs);
      points := cornerPoints + linePoints + surfacePoints + blockPoints;
      KindsWellFormed(brep);
    }

    /** `build_geometry` then `build_topology`. */
    method Build()
      requires Consistent(brep, idMap) && NodesCover(brep, |nodes|) && AllPlaced(brep.corners)
      modifies this`brep, this`points
      ensures brep.corners == old(brep.corners) && brep.nbUniqueVertices == old(brep.nbUniqueVertices)
      ensures AllFiltered(old(brep.lines), brep.lines) && AllFiltered(old(brep.surfaces), brep.surfaces)
      ensures AllFiltered(old(brep.blocks), brep.blocks)
      ensures brep.boundaries == old(brep.boundaries) + (if ListsEntities(version, sections) then {} else Topology(old(brep)))
      ensures AllWellFormed(brep) && RelationsValid(brep) && NodesCover(brep, |nodes|)
      ensures points == Geometry(brep, nodes)
    {
      ghost var read := brep;
      BuildGeometry();
      ghost var filtered := brep;
      FilteredTopology(read, filtered);
      BuildTopology();
      assert brep.(boundaries := filtered.boundaries) == filtered;
    }

    /**
     * `build_topology`: nothing for a version 4 file with an entity
     * section, which lists its relations; otherwise the inferred relations
     * are added.
     */
    method BuildTopology()
      modifies this`brep
      ensures ListsEntities(version, sections) ==> brep == old(brep)
      ensures !ListsEntities(version, sections) ==>
        brep == old(brep).(boundaries := old(brep).boundaries + Topology(old(brep)))
    {
      if version == 4 && ENTITIES in sections {
        return;
      }
      var cl := InferPairs(brep, Corner, Line);
      var ls := InferPairs(brep, Line, Surface);
      var sb := InferPairs(brep, Surface, Block);
      brep := brep.(boundaries := brep.boundaries + (cl + ls + sb));
    }
  }

  // ---------------------------------------------------------------------
  // MSHInput::read
  // ---------------------------------------------------------------------

  /** Whether a version 4 file lists its relations in an entity section. */
  predicate ListsEntities(version: nat, sections: seq<string>)
  {
    version == 4 && ENTITIES in sections
  }

  /** Filtering keeps which unique vertices each component reaches. */
  lemma FilteredSamePresence(cs: seq<Component>, rs: seq<Component>)
    requires AllFiltered(cs, rs)
    ensures SamePresence(cs, rs)
  {
    forall i | 0 <= i < |cs|
      ensures forall uv :: uv in cs[i].uniqueOf <==> uv in rs[i].uniqueOf
    {
      DedupElements(cs[i].uniqueOf);
    }
  }

  /**
   * Filtering the vertices of every line, surface and block changes
   * neither the inferred relations nor the validity of the relations, and
   * adding any relations does not change the components.
   */
  lemma FilteredTopology(read: BRep, filtered: BRep)
    requires filtered.corners == read.corners && filtered.nbUniqueVertices == read.nbUniqueVertices
    requires filtered.boundaries == read.boundaries && RelationsValid(read)
    requires AllFiltered(read.lines, filtered.lines) && AllFiltered(read.surfaces, filtered.surfaces)
    requires AllFiltered(read.blocks, filtered.blocks)
    ensures Topology(filtered) == Topology(read)
    ensures RelationsValid(filtered) && RelationsValid(filtered.(boundaries := filtered.boundaries + Topology(filtered)))
    ensures forall rs: set<Relation>, t :: Components(filtered.(boundaries := rs), t) == Components(filtered, t)
  {
    FilteredSamePresence(read.lines, filtered.lines);
    FilteredSamePresence(read.surfaces, filtered.surfaces);
    FilteredSamePresence(read.blocks, filtered.blocks);
    assert SamePresence(read.corners, filtered.corners);
    TopologySame(read, filtered);
    FilteredRelationsValid(read, filtered);
    TopologyValid(filtered);
  }

  /** Filtering keeps the number of components of each type, so the relations stay valid. */
  lemma FilteredRelationsValid(read: BRep, filtered: BRep)
    requires filtered.corners == read.corners && filtered.boundaries == read.boundaries && RelationsValid(read)
    requires AllFiltered(read.lines, filtered.lines) && AllFiltered(read.surfaces, filtered.surfaces)
    requires AllFiltered(read.blocks, filtered.blocks)
    ensures RelationsValid(filtered)
  {
    assert forall t :: |Components(filtered, t)| == |Components(read, t)|;
    GrowthKeepsRelations(read, filtered);
  }

  /**
   * The header, the section names and the sections of a file, as a
   * reader opened on it reads them: the version, the section names and
   * what the sections hold.
   */
  function ReadAll(lines: seq<string>): (r: Result<(nat, seq<string>, Reading)>)
    ensures r.Ok? ==> r.value.0 == 2 || r.value.0 == 4
    ensures r.Ok? ==> Consistent(r.value.2.brep, r.value.2.idMap)
  {
    match Header(lines)
    case Err(m) => Err(m)
    case Ok(version) =>
      var sections := SectionNames(After(lines, 3));
      assert Consistent(EmptyBRep, map[]);
      match ReadSections(lines, version, sections, Reading(EmptyBRep, map[], [], 0))
      case Err(m) => Err(m)
      case Ok(st) => Ok((version, sections, st))
  }

  /** `ReadAll` once the header has given the version and the section names. */
  lemma ReadAllSteps(lines: seq<string>, version: nat, sections: seq<string>)
    requires Header(lines) == Ok(version) && sections == SectionNames(After(lines, 3))
    ensures version == 2 || version == 4
    ensures var e := ReadSections(lines, version, sections, Reading(EmptyBRep, map[], [], 0));
      ReadAll(lines) == if e.Ok? then Ok((version, sections, e.value)) else Err(e.message)
  {
  }

  /** The constructor of `MSHInputImpl` (`first_read`), then `read_file`. */
  method Open(lines: seq<string>) returns (r: Outcome, reader: MshReader)
    ensures fresh(reader) && reader.points == map[]
    ensures var a := ReadAll(lines);
      && (r.Pass? <==> a.Ok?)
      && (r.Pass? ==> (
        && reader.version == a.value.0 && reader.sections == a.value.1
        && Reading(reader.brep, reader.idMap, reader.nodes, reader.cursor) == a.value.2))
  {
    reader := new MshReader(lines);
    r := reader.FirstRead();
    if r.Fail? {
      return;
    }
    assert Consistent(EmptyBRep, map[]);
    r := reader.ReadFile();
    ReadAllSteps(lines, reader.version, reader.sections);
  }

  /**
   * `MSHInput::read`: the header and section names, the sections, the
   * geometry, then the topology. The model reads as `ReadAll` says; every
   * line, surface and block is then filtered, the inferred relations are
   * added unless an entity section lists them, and every component gets
   * its points. A file in which an element uses a node beyond those read,
   * or a corner has no vertex, fails: the source indexes past its node
   * list there.
   */
  method Read(lines: seq<string>) returns (r: Outcome, b: BRep, pts: map<ComponentId, seq<Coords>>)
    ensures var a := ReadAll(lines);
      && (r.Pass? <==> a.Ok? && NodesCover(a.value.2.brep, |a.value.2.nodes|) && AllPlaced(a.value.2.brep.corners))
      && (r.Pass? ==>
        var (version, sections, e) := a.value;
        && b.corners == e.brep.corners
        && AllFiltered(e.brep.lines, b.lines)
        && AllFiltered(e.brep.surfaces, b.surfaces)
        && AllFiltered(e.brep.blocks, b.blocks)
        && b.nbUniqueVertices == e.brep.nbUniqueVertices
        && b.boundaries == e.brep.boundaries + (if ListsEntities(version, sections) then {} else Topology(e.brep))
        && AllWellFormed(b) && RelationsValid(b)
        && NodesCover(b, |e.nodes|)
        && pts == Geometry(b, e.nodes))
  {
    b, pts := EmptyBRep, map[];
    var reader;
    r, reader := Open(lines);
    if r.Fail? {
      return;
    }
    if !(NodesCover(reader.brep, |reader.nodes|) && AllPlaced(reader.brep.corners)) {
      return Fail("A node id is beyond the nodes of the file"), b, pts;
    }
    reader.Build();
    b, pts := reader.brep, reader.points;
  }
}
