/**
 * The VTU writers: the solid cells written as ascii offsets, connectivity
 * and VTK type codes, the per-cell hooks of the polyhedral, hybrid and
 * tetrahedral writers, and the older tetrahedron-only writer. The XML
 * plumbing is left out; each ascii array is the text the writer puts in
 * its DataArray.
 */
module VtuOutput {
  import opened Wrappers
  import opened Text
  import VtkCells
  import VtuInput
  import Seqs

  // Messages of the exceptions the reader throws
  const HYBRID_POLYHEDRON_ERROR: string := "[VTUHybridOutputImpl::write_vtk_cell] Polyhedron with "
  const TETRAHEDRA_ONLY: string := "[VTUOutput::write_vtk_cells] Only tetrahedron elements are implemented yet"
  const POLYHEDRON_ERROR: string := "[VTUOutput::write_vtk_cells] Polyhedron with "

  // ---------------------------------------------------------------------
  // VTK_CELL_TYPE
  // ---------------------------------------------------------------------

  /**
   * VTK_CELL_TYPE indexed by the number of vertices: 4 tetrahedron (10),
   * 5 pyramid (14), 6 prism (13), 8 hexahedron (12), 0 for every other
   * size (the source indexes past its 9 entries for larger sizes; those
   * are 0 here too).
   */
  function CellType(nbVertices: nat): nat
  {
    if nbVertices == 4 then 10
    else if nbVertices == 5 then 14
    else if nbVertices == 6 then 13
    else if nbVertices == 8 then 12
    else 0
  }

  /**
   * Only the four solid sizes have a type, and each type written is one
   * the reader knows, for a solid of exactly that many vertices.
   */
  lemma CellTypeTable(n: nat)
    ensures CellType(n) != 0 <==> n == 4 || n == 5 || n == 6 || n == 8
    ensures CellType(n) != 0 ==>
      VtuInput.SolidOfCode(CellType(n)).Some? && VtuInput.Arity(VtuInput.SolidOfCode(CellType(n)).value) == n
  {
  }

  /** The type written for each cell. */
  function Types(cells: seq<seq<nat>>): (r: seq<int>)
    ensures |r| == |cells|
  {
    seq(|cells|, p requires 0 <= p < |cells| => CellType(|cells[p]|))
  }

  /** Every cell has a size with a VTK type. */
  predicate Supported(cells: seq<seq<nat>>)
  {
    forall p | 0 <= p < |cells| :: CellType(|cells[p]|) != 0
  }

  /** The texts of the connectivity, offsets and types DataArrays. */
  datatype CellTexts = CellTexts(connectivity: string, offsets: string, types: string)

  /**
   * The loop of write_vtk_cells once the type of every cell is known: the
   * running offset is appended per cell, then the cell's vertices in
   * local order.
   */
  method WriteCellTexts(cells: seq<seq<nat>>, types: seq<int>) returns (texts: CellTexts)
    requires |types| == |cells|
    ensures texts == CellTexts(JoinInts(VtkCells.Flatten(cells)), JoinInts(VtkCells.Offsets(cells)), JoinInts(types))
  {
    var connectivity, offsets, typeText := "", "", "";
    var offset: nat := 0;
    for p := 0 to |cells|
      invariant TextsSoFar(cells, types, p, offset, CellTexts(connectivity, offsets, typeText))
    {
      VtkCells.FlattenStep(cells, p);
      offset := offset + |cells[p]|;
      offsets := AppendInts(offsets, VtkCells.Offsets(cells[..p]), [offset]);
      typeText := AppendInts(typeText, types[..p], [types[p]]);
      connectivity := AppendInts(connectivity, VtkCells.Flatten(cells[..p]), cells[p]);
      TextsStep(cells, types, p);
    }
    assert cells[..|cells|] == cells && types[..|types|] == types;
    texts := CellTexts(connectivity, offsets, typeText);
  }

  /** The texts and running offset after the first p cells. */
  ghost predicate TextsSoFar(cells: seq<seq<nat>>, types: seq<int>, p: nat, offset: nat, texts: CellTexts)
    requires p <= |cells| == |types|
  {
    && offset == |VtkCells.Flatten(cells[..p])|
    && texts.connectivity == JoinInts(VtkCells.Flatten(cells[..p]))
    && texts.offsets == JoinInts(VtkCells.Offsets(cells[..p]))
    && texts.types == JoinInts(types[..p])
  }

  lemma TextsStep(cells: seq<seq<nat>>, types: seq<int>, p: nat)
    requires p < |cells| == |types|
    ensures VtkCells.Flatten(cells[..p + 1]) == VtkCells.Flatten(cells[..p]) + cells[p]
    ensures VtkCells.Offsets(cells[..p + 1]) == VtkCells.Offsets(cells[..p]) + [|VtkCells.Flatten(cells[..p])| + |cells[p]|]
    ensures types[..p + 1] == types[..p] + [types[p]]
  {
    VtkCells.FlattenStep(cells, p);
  }

  /** absl::StrAppend of each value followed by a space. */
  method AppendInts(text: string, ghost done: seq<int>, xs: seq<int>) returns (t: string)
    requires text == JoinInts(done)
    ensures t == JoinInts(done + xs)
  {
    t := text;
    assert done + xs[..0] == done;
    for v := 0 to |xs|
      invariant t == JoinInts(done + xs[..v])
    {
      AppendIntsStep(done, xs, v, t);
      t := t + IntToString(xs[v]) + " ";
    }
    assert xs[..|xs|] == xs;
  }

  lemma AppendIntsStep(done: seq<int>, xs: seq<int>, v: nat, t: string)
    requires v < |xs| && t == JoinInts(done + xs[..v])
    ensures t + IntToString(xs[v]) + " " == JoinInts(done + xs[..v + 1])
  {
    JoinIntsAppend(done + xs[..v], xs[v]);
    assert done + xs[..v + 1] == (done + xs[..v]) + [xs[v]];
  }

  /**
   * write_vtk_cells (private/vtu_output_impl.h): a cell whose size has no
   * VTK type makes the write throw; otherwise one offset per cell, the
   * running total of the sizes, the vertices of each cell in local order,
   * and its type.
   */
  method WriteVtkCells(cells: seq<seq<nat>>) returns (r: Result<CellTexts>)
    ensures r.Ok? <==> Supported(cells)
    ensures r.Ok? ==> r.value == CellTexts(JoinInts(VtkCells.Flatten(cells)), JoinInts(VtkCells.Offsets(cells)), JoinInts(Types(cells)))
  {
    for p := 0 to |cells|
      invariant forall q | 0 <= q < p :: CellType(|cells[q]|) != 0
    {
      if CellType(|cells[p]|) == 0 {
        return Err(POLYHEDRON_ERROR + NatToString(|cells[p]|) + " vertices not supported");
      }
    }
    var texts := WriteCellTexts(cells, Types(cells));
    return Ok(texts);
  }

  /**
   * What the writer puts in the three arrays is read back by the VTU
   * reader as the same cells and types, and a reader with every solid
   * enabled rebuilds each cell with the face table of its size.
   */
  lemma WrittenSolidsReadBack(cells: seq<seq<nat>>)
    requires Supported(cells) && forall p | 0 <= p < |cells| :: VtkCells.IndexValues(cells[p])
    ensures VtuInput.CellsRead([VtuInput.CellArray("offsets", "Int64", VtkCells.Offsets(cells)),
                                VtuInput.CellArray("connectivity", "Int64", VtkCells.Flatten(cells)),
                                VtuInput.CellArray("types", "UInt8", Types(cells))], |cells|) == Ok((cells, Types(cells)))
    ensures |VtuInput.Kept(cells, Types(cells), VtuInput.AllSolids())| == |cells|
    ensures forall p | 0 <= p < |cells| :: (VtuInput.Kept(cells, Types(cells), VtuInput.AllSolids())[p] ==
      VtuInput.Polyhedron(cells[p], VtuInput.Faces(VtuInput.SolidOfCode(CellType(|cells[p]|)).value)))
  {
    var types := Types(cells);
    VtuInput.WrittenCellsReadBack(cells, types);
    forall p | 0 <= p < |types|
      ensures types[p] in VtuInput.AllSolids()
      ensures VtuInput.AllSolids()[types[p]] == VtuInput.Faces(VtuInput.SolidOfCode(CellType(|cells[p]|)).value)
    {
      VtuInput.AllSolidsTable(types[p]);
    }
    VtuInput.KeptAll(cells, types, VtuInput.AllSolids());
  }

  // ---------------------------------------------------------------------
  // The older tetrahedron-only writer (src/geode/io/mesh/vtu_output.cpp)
  // ---------------------------------------------------------------------

  /** The same type for n cells. */
  function Repeat(x: int, n: nat): (r: seq<int>)
    ensures |r| == n && forall p | 0 <= p < n :: r[p] == x
  {
    seq(n, p => x)
  }

  lemma RepeatStep(x: int, n: nat)
    ensures Repeat(x, n + 1) == Repeat(x, n) + [x]
  {
  }

  /** Every cell is a tetrahedron. */
  predicate AllTetrahedra(cells: seq<seq<nat>>)
  {
    forall p | 0 <= p < |cells| :: |cells[p]| == 4
  }

  /**
   * write_vtk_cells as written: a cell without exactly 4 vertices throws;
   * each tetrahedron writes the 3 vertices of each of its 4 facets (12
   * entries, `facets[p]`, given by the mesh), its offset grows by 12 and
   * its type is 10.
   */
  method WriteTetrahedraAsWritten(cells: seq<seq<nat>>, facets: seq<seq<nat>>) returns (r: Result<CellTexts>)
    requires |facets| == |cells| && forall p | 0 <= p < |cells| :: |cells[p]| == 4 ==> |facets[p]| == 12
    ensures r.Ok? <==> AllTetrahedra(cells)
    ensures r.Ok? ==> (r.value ==
      CellTexts(JoinInts(VtkCells.Flatten(facets)), JoinInts(VtkCells.Offsets(facets)), JoinInts(Repeat(10, |cells|))))
  {
    for p := 0 to |cells|
      invariant forall q | 0 <= q < p :: |cells[q]| == 4
    {
      if |cells[p]| != 4 {
        return Err(TETRAHEDRA_ONLY);
      }
    }
    var texts := WriteCellTexts(facets, Repeat(10, |cells|));
    return Ok(texts);
  }

  /** With 12 entries per cell the offsets are 12, 24, ..., 12 n. */
  lemma {:induction false} OffsetsOfTwelve(facets: seq<seq<nat>>)
    requires forall p | 0 <= p < |facets| :: |facets[p]| == 12
    ensures |VtkCells.Flatten(facets)| == 12 * |facets|
    ensures forall p | 0 <= p < |facets| :: VtkCells.Offsets(facets)[p] == 12 * (p + 1)
    decreases |facets|
  {
    if facets != [] {
      var n := |facets| - 1;
      OffsetsOfTwelve(facets[..n]);
    }
  }

  /**
   * Finding: the tetrahedra written by the older writer read back as
   * 12-vertex cells of type 10, so no cell is the tetrahedron written.
   */
  lemma TetrahedraReadAsTwelve(cells: seq<seq<nat>>, facets: seq<seq<nat>>)
    requires |facets| == |cells| && AllTetrahedra(cells)
    requires forall p | 0 <= p < |cells| :: |facets[p]| == 12 && VtkCells.IndexValues(facets[p])
    ensures VtuInput.CellsRead([VtuInput.CellArray("offsets", "Int64", VtkCells.Offsets(facets)),
                                VtuInput.CellArray("connectivity", "Int64", VtkCells.Flatten(facets)),
                                VtuInput.CellArray("types", "UInt8", Repeat(10, |cells|))], |cells|) == Ok((facets, Repeat(10, |cells|)))
    ensures forall p | 0 <= p < |cells| :: facets[p] != cells[p]
  {
    VtuInput.WrittenCellsReadBack(facets, Repeat(10, |cells|));
    forall p | 0 <= p < |cells|
      ensures facets[p] != cells[p]
    {
      assert |facets[p]| != |cells[p]|;
    }
  }

  /**
   * The corrected tetrahedron writer: each cell writes its 4 vertices and
   * its offset grows by 4, as VTK type 10 expects.
   */
  method WriteTetrahedra(cells: seq<seq<nat>>) returns (r: Result<CellTexts>)
    ensures r.Ok? <==> AllTetrahedra(cells)
    ensures r.Ok? ==> (r.value ==
      CellTexts(JoinInts(VtkCells.Flatten(cells)), JoinInts(VtkCells.Offsets(cells)), JoinInts(Repeat(10, |cells|))))
  {
    for p := 0 to |cells|
      invariant forall q | 0 <= q < p :: |cells[q]| == 4
    {
      if |cells[p]| != 4 {
        return Err(TETRAHEDRA_ONLY);
      }
    }
    var texts := WriteCellTexts(cells, Repeat(10, |cells|));
    return Ok(texts);
  }

  /** The corrected writer's tetrahedra read back as themselves. */
  lemma TetrahedraRoundTrip(cells: seq<seq<nat>>)
    requires AllTetrahedra(cells) && forall p | 0 <= p < |cells| :: VtkCells.IndexValues(cells[p])
    ensures VtuInput.CellsRead([VtuInput.CellArray("offsets", "Int64", VtkCells.Offsets(cells)),
                                VtuInput.CellArray("connectivity", "Int64", VtkCells.Flatten(cells)),
                                VtuInput.CellArray("types", "UInt8", Repeat(10, |cells|))], |cells|) == Ok((cells, Repeat(10, |cells|)))
  {
    VtuInput.WrittenCellsReadBack(cells, Repeat(10, |cells|));
  }

  // ---------------------------------------------------------------------
  // write_cell of the polyhedral, hybrid and tetrahedral writers
  // ---------------------------------------------------------------------

  /** Each facet as its vertex count followed by its vertices. */
  function FacetList(facets: seq<seq<nat>>): seq<nat>
  {
    if facets == [] then [] else FacetList(facets[..|facets| - 1]) + [|facets[|facets| - 1]|] + facets[|facets| - 1]
  }

  /** One more facet. */
  lemma FacetStep(facets: seq<seq<nat>>, f: nat)
    requires f < |facets|
    ensures FacetList(facets[..f + 1]) == FacetList(facets[..f]) + [|facets[f]|] + facets[f]
    ensures FacetSizes(facets[..f + 1]) == FacetSizes(facets[..f]) + |facets[f]| + 1
  {
    assert facets[..f + 1][..f] == facets[..f];
  }

  /** One polyhedron in the faces array: its facet count, then each facet. */
  function FaceStream(facets: seq<seq<nat>>): seq<nat>
  {
    [|facets|] + FacetList(facets)
  }

  /** Sum over the facets of (vertex count + 1). */
  function FacetSizes(facets: seq<seq<nat>>): nat
  {
    if facets == [] then 0 else FacetSizes(facets[..|facets| - 1]) + |facets[|facets| - 1]| + 1
  }

  /** The offset 1 + sum of (vertices + 1) is exactly the number of integers a polyhedron adds. */
  lemma {:induction false} FaceStreamLength(facets: seq<seq<nat>>)
    ensures |FaceStream(facets)| == 1 + FacetSizes(facets)
    decreases |facets|
  {
    if facets != [] {
      FaceStreamLength(facets[..|facets| - 1]);
    }
  }

  /** After f facets: the count, then the first f facets, and their offset. */
  ghost predicate StreamSoFar(before: seq<int>, facets: seq<seq<nat>>, f: nat, done: seq<int>, offset: nat)
    requires f <= |facets|
  {
    done == before + [|facets|] + FacetList(facets[..f]) && offset == 1 + FacetSizes(facets[..f])
  }

  lemma FacetAdvance(before: seq<int>, facets: seq<seq<nat>>, f: nat, done: seq<int>, offset: nat)
    requires f < |facets| && StreamSoFar(before, facets, f, done, offset)
    ensures StreamSoFar(before, facets, f + 1, done + ([|facets[f]|] + facets[f]), offset + |facets[f]| + 1)
  {
    FacetStep(facets, f);
    Seqs.AppendThree(before, [|facets|], FacetList(facets[..f]), [|facets[f]|] + facets[f]);
    Seqs.AppendTwo(before + [|facets|], FacetList(facets[..f]), [|facets[f]|] + facets[f]);
    assert FacetList(facets[..f]) + [|facets[f]|] + facets[f] == FacetList(facets[..f]) + ([|facets[f]|] + facets[f]);
  }

  /**
   * The facet loop of VTUPolyhedralOutputImpl::write_cell: the facet count,
   * then each facet's size and vertices; the offset grows by 1 and by
   * each facet's size + 1.
   */
  method AppendFaceStream(text: string, ghost before: seq<int>, facets: seq<seq<nat>>) returns (t: string, offset: nat)
    requires text == JoinInts(before)
    ensures t == JoinInts(before + FaceStream(facets))
    ensures offset == 1 + FacetSizes(facets)
    ensures offset == |FaceStream(facets)|
  {
    t := AppendInts(text, before, [|facets|]);
    ghost var done := before + [|facets|];
    offset := 1;
    assert facets[..0] == [];
    for f := 0 to |facets|
      invariant t == JoinInts(done)
      invariant StreamSoFar(before, facets, f, done, offset)
    {
      var facet := facets[f];
      FacetAdvance(before, facets, f, done, offset);
      offset := offset + |facet| + 1;
      t := AppendInts(t, done, [|facet|] + facet);
      done := done + ([|facet|] + facet);
    }
    assert facets[..|facets|] == facets;
    Seqs.AppendTwo(before, [|facets|], FacetList(facets));
    FaceStreamLength(facets);
  }

  /**
   * The strings the per-cell hook appends to, with the integers each
   * holds (ghost) and the running face offset.
   */
  class CellWriter {
    var cellTypes: string
    var cellFaces: string
    var cellFaceOffsets: string
    var faceOffset: nat
    ghost var types: seq<int>
    ghost var faces: seq<int>
    ghost var faceOffsets: seq<int>

    /** Each string is its integers written "v "; the face offset counts the face integers. */
    ghost predicate Valid()
      reads this
    {
      Texts() && faceOffset == |faces|
    }

    /** Each string is its integers written "v ". */
    ghost predicate Texts()
      reads this
    {
      cellTypes == JoinInts(types) && cellFaces == JoinInts(faces) && cellFaceOffsets == JoinInts(faceOffsets)
    }

    constructor()
      ensures Valid() && types == [] && faces == [] && faceOffsets == []
    {
      cellTypes, cellFaces, cellFaceOffsets := "", "", "";
      faceOffset := 0;
      types, faces, faceOffsets := [], [], [];
    }

    /**
     * VTUPolyhedralOutputImpl::write_cell: type 42, the polyhedron's face
     * stream, and the face offset grown by 1 + sum of (facet size + 1) and
     * appended.
     */
    method WritePolyhedralCell(facets: seq<seq<nat>>)
      requires Valid()
      modifies this
      ensures Valid()
      ensures types == old(types) + [42]
      ensures faces == old(faces) + FaceStream(facets)
      ensures faceOffset == old(faceOffset) + 1 + FacetSizes(facets)
      ensures faceOffsets == old(faceOffsets) + [faceOffset]
    {
      cellTypes := AppendInts(cellTypes, types, [42]);
      types := types + [42];
      var text, offset := AppendFaceStream(cellFaces, faces, facets);
      cellFaces := text;
      faces := faces + FaceStream(facets);
      faceOffset := faceOffset + offset;
      cellFaceOffsets := AppendInts(cellFaceOffsets, faceOffsets, [faceOffset]);
      faceOffsets := faceOffsets + [faceOffset];
    }

    /**
     * The polyhedral writer's loop over the cells of a solid, starting from
     * empty strings: the faces string holds the polyhedra's face streams
     * one after the other and the face offsets are their running totals.
     */
    method WritePolyhedra(polyhedra: seq<seq<seq<nat>>>)
      requires Valid() && types == [] && faces == [] && faceOffsets == []
      modifies this
      ensures Valid()
      ensures types == Repeat(42, |polyhedra|)
      ensures faces == VtkCells.Flatten(Streams(polyhedra))
      ensures faceOffsets == VtkCells.Offsets(Streams(polyhedra))
    {
      for p := 0 to |polyhedra|
        invariant Valid()
        invariant types == Repeat(42, p)
        invariant faces == VtkCells.Flatten(Streams(polyhedra)[..p])
        invariant faceOffsets == VtkCells.Offsets(Streams(polyhedra)[..p])
      {
        VtkCells.FlattenStep(Streams(polyhedra), p);
        RepeatStep(42, p);
        WritePolyhedralCell(polyhedra[p]);
      }
      assert Streams(polyhedra)[..|polyhedra|] == Streams(polyhedra);
    }

    /**
     * VTUHybridOutputImpl::write_cell: the type of the cell's size, which
     * must have one; the face strings and offset are untouched.
     */
    method WriteHybridCell(nbVertices: nat) returns (r: Outcome)
      requires Valid()
      modifies this
      ensures Valid()
      ensures r.Pass? <==> CellType(nbVertices) != 0
      ensures types == old(types) + (if r.Pass? then [CellType(nbVertices) as int] else [])
      ensures faces == old(faces) && faceOffsets == old(faceOffsets) && faceOffset == old(faceOffset)
    {
      var vtkType := CellType(nbVertices);
      if vtkType == 0 {
        return Fail(HYBRID_POLYHEDRON_ERROR + NatToString(nbVertices) + " vertices not supported");
      }
      cellTypes := AppendInts(cellTypes, types, [vtkType]);
      types := types + [vtkType];
      return Pass;
    }

    /**
     * VTUTetrahedralOutputImpl::write_cell: "10 " whatever the cell; the
     * face strings and offset are untouched.
     */
    method WriteTetrahedralCell(p: nat)
      requires Valid()
      modifies this
      ensures Valid()
      ensures types == old(types) + [10]
      ensures faces == old(faces) && faceOffsets == old(faceOffsets) && faceOffset == old(faceOffset)
    {
      cellTypes := AppendInts(cellTypes, types, [10]);
      types := types + [10];
    }
  }

  /** The faces string read back as tokens has exactly as many tokens as the face offset counts. */
  lemma FaceOffsetCountsTokens(faces: seq<int>)
    ensures Split(JoinInts(faces)) == IntStrings(faces)
    ensures |Split(JoinInts(faces))| == |faces|
  {
    SplitJoinInts(faces);
  }

  /** The face streams of a sequence of polyhedra, each given by its facets. */
  function Streams(polyhedra: seq<seq<seq<nat>>>): (r: seq<seq<nat>>)
    ensures |r| == |polyhedra|
  {
    seq(|polyhedra|, p requires 0 <= p < |polyhedra| => FaceStream(polyhedra[p]))
  }

  /**
   * The face offsets slice the faces array the way cell offsets slice a
   * connectivity: polyhedron p's face stream lies between face offset
   * p - 1 and face offset p.
   */
  lemma FaceOffsetsSliceFaces(polyhedra: seq<seq<seq<nat>>>, p: nat)
    requires p < |polyhedra|
    ensures VtkCells.WellFormed(VtkCells.Offsets(Streams(polyhedra)), |VtkCells.Flatten(Streams(polyhedra))|)
    ensures VtkCells.Flatten(Streams(polyhedra))[VtkCells.Start(VtkCells.Offsets(Streams(polyhedra)), p)..VtkCells.Offsets(Streams(polyhedra))[p]]
      == FaceStream(polyhedra[p])
  {
    VtkCells.SliceOfFlatten(Streams(polyhedra), p);
  }
}
