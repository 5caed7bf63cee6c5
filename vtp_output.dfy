/**
 * The VTP writers' cell blocks: polygons under "Polys", edges under
 * "Lines" and one single-vertex cell per point under "Verts", each an
 * ascii connectivity array and an ascii offsets array holding running
 * totals; and the choice of which cell attributes get a DataArray.
 */
module VtpOutput {
  import opened Wrappers
  import opened Text
  import VtkCells
  import VtuOutput
  import VtpInput

  /**
   * One cell block of a Piece: the count attribute of the Piece, the name
   * of the block, the RangeMax of its two Int64 DataArrays and their
   * texts.
   */
  datatype CellBlock = CellBlock(
    countName: string, count: nat, blockName: string,
    connectivityMax: nat, offsetsMax: nat,
    connectivity: string, offsets: string)

  /** RangeMax of connectivity: nb_vertices() - 1 in index_t, which wraps to 2^32 - 1 for an empty mesh. */
  function LastVertex(nbVertices: nat): (r: nat)
    ensures r < VtkCells.INDEX_MODULUS
    ensures 0 < nbVertices <= VtkCells.INDEX_MODULUS ==> r == nbVertices - 1
    ensures nbVertices == 0 ==> r == VtkCells.INDEX_MODULUS - 1
  {
    VtkCells.ToIndex(nbVertices - 1)
  }

  // ---------------------------------------------------------------------
  // Polygons (private/vtp_output_impl.h, vtp_output.cpp, vtp_surface_output_impl.h)
  // ---------------------------------------------------------------------

  /** The texts and running vertex count after the first p polygons. */
  ghost predicate PolysSoFar(polygons: seq<seq<nat>>, p: nat, vertexCount: nat, connectivity: string, offsets: string)
    requires p <= |polygons|
  {
    && vertexCount == |VtkCells.Flatten(polygons[..p])|
    && connectivity == JoinInts(VtkCells.Flatten(polygons[..p]))
    && offsets == JoinInts(VtkCells.Offsets(polygons[..p]))
  }

  /**
   * VTPOutputImpl::write_vtk_cells: NumberOfPolys is the polygon count;
   * per polygon the running vertex count goes to the offsets and its
   * vertices, in order, to the connectivity.
   */
  method WritePolys(nbVertices: nat, polygons: seq<seq<nat>>) returns (r: CellBlock)
    ensures r.countName == "NumberOfPolys" && r.count == |polygons| && r.blockName == "Polys"
    ensures r.connectivityMax == LastVertex(nbVertices) && r.offsetsMax == nbVertices
    ensures r.connectivity == JoinInts(VtkCells.Flatten(polygons))
    ensures r.offsets == JoinInts(VtkCells.Offsets(polygons))
  {
    var connectivity, offsets := "", "";
    var vertexCount: nat := 0;
    for p := 0 to |polygons|
      invariant PolysSoFar(polygons, p, vertexCount, connectivity, offsets)
    {
      VtkCells.FlattenStep(polygons, p);
      vertexCount := vertexCount + |polygons[p]|;
      offsets := VtuOutput.AppendInts(offsets, VtkCells.Offsets(polygons[..p]), [vertexCount]);
      connectivity := VtuOutput.AppendInts(connectivity, VtkCells.Flatten(polygons[..p]), polygons[p]);
    }
    assert polygons[..|polygons|] == polygons;
    r := CellBlock("NumberOfPolys", |polygons|, "Polys", LastVertex(nbVertices), nbVertices, connectivity, offsets);
  }

  /** Every value of the flattened cells is one of the cells' values. */
  lemma {:induction false} FlattenIndexValues(cells: seq<seq<nat>>)
    requires forall p | 0 <= p < |cells| :: VtkCells.IndexValues(cells[p])
    ensures VtkCells.IndexValues(VtkCells.Flatten(cells))
    decreases |cells|
  {
    if cells != [] {
      var n := |cells| - 1;
      FlattenIndexValues(cells[..n]);
    }
  }

  /**
   * What the writer puts in the two texts reads back, token by token
   * with the VTP reader's conversion, as the flattened vertices and the
   * running totals, and slicing one by the other gives back every
   * polygon: the file describes the surface it was written from.
   */
  lemma WrittenPolysReadBack(polygons: seq<seq<nat>>)
    requires forall p | 0 <= p < |polygons| :: VtkCells.IndexValues(polygons[p])
    requires |VtkCells.Flatten(polygons)| < VtkCells.INDEX_MODULUS
    ensures VtpInput.ConvertAll(Split(JoinInts(VtkCells.Flatten(polygons))), VtpInput.IndexOfToken) == Ok(VtkCells.Flatten(polygons))
    ensures VtpInput.ConvertAll(Split(JoinInts(VtkCells.Offsets(polygons))), VtpInput.IndexOfToken).Ok?
    ensures VtpInput.ConvertAll(Split(JoinInts(VtkCells.Offsets(polygons))), VtpInput.IndexOfToken).value == VtkCells.Offsets(polygons)
    ensures VtkCells.WellFormed(VtkCells.Offsets(polygons), |VtkCells.Flatten(polygons)|)
    ensures forall p | 0 <= p < |polygons| :: VtkCells.Cell(VtkCells.Flatten(polygons), VtkCells.Offsets(polygons), p) == polygons[p]
  {
    FlattenIndexValues(polygons);
    VtpInput.IndicesRoundTrip(VtkCells.Flatten(polygons));
    VtkCells.CellsRoundTrip(polygons);
    var o := VtkCells.Offsets(polygons);
    var offsets: seq<nat> := seq(|o|, k requires 0 <= k < |o| => o[k] as nat);
    assert offsets == o;
    VtpInput.IndicesRoundTrip(offsets);
  }

  // ---------------------------------------------------------------------
  // Texture seams (private/vtp_surface_output_impl.h)
  // ---------------------------------------------------------------------

  /**
   * The polygons as the textured writer numbers them: corner (p, v) is
   * vertex_mapping_[vertex].at(p), where vertex is the polygon's v-th
   * vertex; at() throws when polygon p has no entry for the vertex.
   */
  function Mapped(polygons: seq<seq<nat>>, mapping: seq<map<nat, nat>>): (r: Result<seq<seq<nat>>>)
    ensures r.Ok? <==> forall p, v | 0 <= p < |polygons| && 0 <= v < |polygons[p]| :: MappedCorner(polygons, mapping, p, v)
    ensures r.Ok? ==> |r.value| == |polygons|
    ensures r.Ok? ==> forall p | 0 <= p < |polygons| :: |r.value[p]| == |polygons[p]|
    ensures r.Ok? ==> forall p, v | 0 <= p < |polygons| && 0 <= v < |polygons[p]| ::
      MappedCorner(polygons, mapping, p, v) && r.value[p][v] == mapping[polygons[p][v]][p]
  {
    if forall p, v | 0 <= p < |polygons| && 0 <= v < |polygons[p]| :: MappedCorner(polygons, mapping, p, v) then
      Ok(seq(|polygons|, p requires 0 <= p < |polygons| =>
        seq(|polygons[p]|, v requires 0 <= v < |polygons[p]| => MappedAt(polygons, mapping, p, v))))
    else Err("map::at")
  }

  /** The output vertex of corner (p, v). */
  function MappedAt(polygons: seq<seq<nat>>, mapping: seq<map<nat, nat>>, p: nat, v: nat): nat
    requires p < |polygons| && v < |polygons[p]| && MappedCorner(polygons, mapping, p, v)
  {
    mapping[polygons[p][v]][p]
  }

  /** Corner (p, v) has an entry in its vertex's mapping. */
  predicate MappedCorner(polygons: seq<seq<nat>>, mapping: seq<map<nat, nat>>, p: nat, v: nat)
    requires p < |polygons| && v < |polygons[p]|
  {
    polygons[p][v] < |mapping| && p in mapping[polygons[p][v]]
  }

  /**
   * write_vtk_cells of the surface writer: without texture (an empty
   * vertex_mapping_) the polygon vertices as they are, with textures the
   * mapped corners; the offsets are the same running totals either way.
   */
  method WriteSurfacePolys(nbVertices: nat, polygons: seq<seq<nat>>, mapping: seq<map<nat, nat>>) returns (r: Result<CellBlock>)
    ensures mapping == [] ==> r.Ok? && r.value.connectivity == JoinInts(VtkCells.Flatten(polygons))
    ensures mapping != [] ==> (r.Ok? <==> Mapped(polygons, mapping).Ok?)
    ensures mapping != [] && r.Ok? ==> r.value.connectivity == JoinInts(VtkCells.Flatten(Mapped(polygons, mapping).value))
    ensures r.Ok? ==> r.value.offsets == JoinInts(VtkCells.Offsets(polygons))
    ensures r.Ok? ==> r.value.countName == "NumberOfPolys" && r.value.count == |polygons| && r.value.blockName == "Polys"
  {
    var corners := polygons;
    if mapping != [] {
      var m := MapPolygons(polygons, mapping);
      if m.Err? {
        return Err(m.message);
      }
      corners := m.value;
      SameSizesSameOffsets(polygons, corners);
    }
    var block := WritePolys(nbVertices, corners);
    return Ok(block);
  }

  /** The per-corner lookups of write_vtk_cells, polygon by polygon; the first missing entry throws. */
  method MapPolygons(polygons: seq<seq<nat>>, mapping: seq<map<nat, nat>>) returns (r: Result<seq<seq<nat>>>)
    ensures r == Mapped(polygons, mapping)
  {
    var corners: seq<seq<nat>> := [];
    for p := 0 to |polygons|
      invariant |corners| == p
      invariant forall q | 0 <= q < p :: |corners[q]| == |polygons[q]|
      invariant forall q, v | 0 <= q < p && 0 <= v < |polygons[q]| ::
        MappedCorner(polygons, mapping, q, v) && corners[q][v] == mapping[polygons[q][v]][q]
    {
      var corner: seq<nat> := [];
      for v := 0 to |polygons[p]|
        invariant |corner| == v
        invariant forall w | 0 <= w < v :: MappedCorner(polygons, mapping, p, w) && corner[w] == mapping[polygons[p][w]][p]
      {
        var vertex := polygons[p][v];
        if !(vertex < |mapping| && p in mapping[vertex]) {
          assert !MappedCorner(polygons, mapping, p, v);
          return Err("map::at");
        }
        corner := corner + [mapping[vertex][p]];
      }
      corners := corners + [corner];
    }
    var m := Mapped(polygons, mapping);
    assert m.Ok?;
    forall p | 0 <= p < |polygons|
      ensures m.value[p] == corners[p]
    {
      assert |m.value[p]| == |corners[p]|;
    }
    assert m.value == corners;
    r := Ok(corners);
  }

  /** Cells of the same sizes have the same running totals. */
  lemma {:induction false} SameSizesSameOffsets(a: seq<seq<nat>>, b: seq<seq<nat>>)
    requires |a| == |b| && forall p | 0 <= p < |a| :: |a[p]| == |b[p]|
    ensures |VtkCells.Flatten(a)| == |VtkCells.Flatten(b)|
    ensures VtkCells.Offsets(a) == VtkCells.Offsets(b)
    decreases |a|
  {
    if a != [] {
      var n := |a| - 1;
      SameSizesSameOffsets(a[..n], b[..n]);
    }
  }

  // ---------------------------------------------------------------------
  // Edges (vtp_edged_curve_output.cpp)
  // ---------------------------------------------------------------------

  /** Each edge as a two-vertex cell. */
  function EdgeCells(edges: seq<(nat, nat)>): (r: seq<seq<nat>>)
    ensures |r| == |edges|
    ensures forall e | 0 <= e < |edges| :: r[e] == [edges[e].0, edges[e].1]
  {
    seq(|edges|, e requires 0 <= e < |edges| => [edges[e].0, edges[e].1])
  }

  /** 2, 4, ..., 2n. */
  function Evens(n: nat): (r: seq<int>)
    ensures |r| == n && forall e | 0 <= e < n :: r[e] == 2 * (e + 1)
  {
    seq(n, e => 2 * (e + 1))
  }

  /**
   * The edged-curve write_vtk_cells: NumberOfLines is the edge count; the
   * vertex count grows by 2 per edge and is appended to the offsets, and
   * both edge vertices go to the connectivity, under "Lines".
   */
  method WriteLines(nbVertices: nat, edges: seq<(nat, nat)>) returns (r: CellBlock)
    ensures r.countName == "NumberOfLines" && r.count == |edges| && r.blockName == "Lines"
    ensures r.connectivityMax == LastVertex(nbVertices) && r.offsetsMax == nbVertices
    ensures r.offsets == JoinInts(Evens(|edges|))
    ensures r.connectivity == JoinInts(VtkCells.Flatten(EdgeCells(edges)))
  {
    var connectivity, offsets := "", "";
    var vertexCount := 0;
    var cells := EdgeCells(edges);
    for e := 0 to |edges|
      invariant vertexCount == 2 * e
      invariant offsets == JoinInts(Evens(e))
      invariant connectivity == JoinInts(VtkCells.Flatten(cells[..e]))
    {
      VtkCells.FlattenStep(cells, e);
      assert Evens(e + 1) == Evens(e) + [2 * (e + 1)];
      vertexCount := vertexCount + 2;
      offsets := VtuOutput.AppendInts(offsets, Evens(e), [vertexCount]);
      connectivity := VtuOutput.AppendInts(connectivity, VtkCells.Flatten(cells[..e]), [edges[e].0, edges[e].1]);
    }
    assert cells[..|edges|] == cells;
    r := CellBlock("NumberOfLines", |edges|, "Lines", LastVertex(nbVertices), nbVertices, connectivity, offsets);
  }

  /**
   * The constant step of 2 is the running total of two-vertex cells: the
   * Lines block is the generic offsets + connectivity encoding of the
   * edges, so slicing it gives back each edge.
   */
  lemma {:induction false} LinesAreCells(edges: seq<(nat, nat)>)
    ensures VtkCells.Offsets(EdgeCells(edges)) == Evens(|edges|)
    ensures |VtkCells.Flatten(EdgeCells(edges))| == 2 * |edges|
    decreases |edges|
  {
    if edges != [] {
      var n := |edges| - 1;
      LinesAreCells(edges[..n]);
      assert EdgeCells(edges)[..n] == EdgeCells(edges[..n]);
    }
  }

  // ---------------------------------------------------------------------
  // Points (vtp_point_set_output.cpp)
  // ---------------------------------------------------------------------

  /** Vertex v as the single-vertex cell [v]. */
  function PointCells(n: nat): (r: seq<seq<nat>>)
    ensures |r| == n && forall v | 0 <= v < n :: r[v] == [v]
  {
    seq(n, v => [v])
  }

  /** 0, 1, ..., n - 1. */
  function Upto(n: nat): (r: seq<int>)
    ensures |r| == n && forall v | 0 <= v < n :: r[v] == v
  {
    seq(n, v => v)
  }

  /**
   * The point-set write_vtk_cells: NumberOfVerts is the vertex count;
   * vertex v writes v + 1 to the offsets and v to the connectivity,
   * under "Verts".
   */
  method WriteVerts(nbVertices: nat) returns (r: CellBlock)
    ensures r.countName == "NumberOfVerts" && r.count == nbVertices && r.blockName == "Verts"
    ensures r.connectivityMax == LastVertex(nbVertices) && r.offsetsMax == nbVertices
    ensures r.connectivity == JoinInts(Upto(nbVertices))
    ensures r.offsets == JoinInts(Upto(nbVertices + 1)[1..])
  {
    var connectivity, offsets := "", "";
    for v := 0 to nbVertices
      invariant connectivity == JoinInts(Upto(v))
      invariant offsets == JoinInts(Upto(v + 1)[1..])
    {
      assert Upto(v + 1) == Upto(v) + [v];
      assert Upto(v + 2)[1..] == Upto(v + 1)[1..] + [v + 1];
      offsets := VtuOutput.AppendInts(offsets, Upto(v + 1)[1..], [v + 1]);
      connectivity := VtuOutput.AppendInts(connectivity, Upto(v), [v]);
    }
    r := CellBlock("NumberOfVerts", nbVertices, "Verts", LastVertex(nbVertices), nbVertices, connectivity, offsets);
  }

  /**
   * The Verts block is the generic encoding of one single-vertex cell
   * per point: vertex v is cell v.
   */
  lemma {:induction false} VertsAreCells(n: nat)
    ensures VtkCells.Flatten(PointCells(n)) == Upto(n)
    ensures VtkCells.Offsets(PointCells(n)) == Upto(n + 1)[1..]
  {
    if n > 0 {
      VertsAreCells(n - 1);
      assert PointCells(n)[..n - 1] == PointCells(n - 1);
      assert Upto(n) == Upto(n - 1) + [n - 1];
      assert Upto(n + 1)[1..] == Upto(n)[1..] + [n];
    }
  }

  // ---------------------------------------------------------------------
  // Cell attributes
  // ---------------------------------------------------------------------

  /**
   * A polygon or edge attribute as the writer sees it: its name, and
   * whether find_generic_attribute gives an attribute that is
   * genericable (a missing one counts as not genericable).
   */
  datatype AttributeInfo = AttributeInfo(name: string, genericable: bool)

  /** The names, in order, of the genericable attributes. */
  function GenericableNames(attributes: seq<AttributeInfo>): seq<string>
  {
    if attributes == [] then []
    else
      var last := attributes[|attributes| - 1];
      GenericableNames(attributes[..|attributes| - 1]) + (if last.genericable then [last.name] else [])
  }

  /**
   * write_vtk_cell_attributes: one Float64 DataArray per attribute name,
   * skipping (continue) those that are not genericable; the result is the
   * Name of each DataArray in the order they are appended.
   */
  method WriteCellAttributes(attributes: seq<AttributeInfo>) returns (names: seq<string>)
    ensures names == GenericableNames(attributes)
  {
    names := [];
    for i := 0 to |attributes|
      invariant names == GenericableNames(attributes[..i])
    {
      assert attributes[..i + 1][..i] == attributes[..i];
      if !attributes[i].genericable {
        continue;
      }
      names := names + [attributes[i].name];
    }
    assert attributes[..|attributes|] == attributes;
  }

  /**
   * A DataArray is written for an attribute exactly when it is
   * genericable, and never more arrays than attributes.
   */
  lemma {:induction false} GenericableExactly(attributes: seq<AttributeInfo>)
    ensures |GenericableNames(attributes)| <= |attributes|
    ensures forall name :: name in GenericableNames(attributes) <==>
      exists i | 0 <= i < |attributes| :: attributes[i].genericable && attributes[i].name == name
    decreases |attributes|
  {
    if attributes != [] {
      var n := |attributes| - 1;
      GenericableExactly(attributes[..n]);
      forall name
        ensures name in GenericableNames(attributes) <==>
          exists i | 0 <= i < |attributes| :: attributes[i].genericable && attributes[i].name == name
      {
        if name in GenericableNames(attributes[..n]) {
          var i :| 0 <= i < n && attributes[..n][i].genericable && attributes[..n][i].name == name;
          assert attributes[i] == attributes[..n][i];
        }
        if exists i | 0 <= i < |attributes| :: attributes[i].genericable && attributes[i].name == name {
          var i :| 0 <= i < |attributes| && attributes[i].genericable && attributes[i].name == name;
          if i < n {
            assert attributes[..n][i] == attributes[i];
          }
        }
      }
    }
  }
}
