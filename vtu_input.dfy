/**
 * The VTU readers for unstructured grids: reading the Cells arrays
 * (offsets, connectivity, types) of a piece, the VTK face tables of the
 * solid cells, the type codes a reader has been told to accept, and the
 * loops that create one polyhedron or polygon per accepted cell. The mesh
 * builders are upstream: a reader keeps the cells it created as a
 * sequence.
 */
module VtuInput {
  import opened Wrappers
  import VtkCells
  import VtkInput
  import MshCommon

  // Messages of the exceptions the reader throws
  const OFFSETS_RANGE_ERROR: string := "[VTUInputImpl::read_cells] Offsets out of range"
  const CONNECTIVITY_TYPE_ERROR: string := "[VTUInputImpl::read_cells] Wrong connectivity type, supports only Int64"
  const OFFSETS_COUNT_ERROR: string := "[VTUInputImpl::read_cells] Wrong number of offsets or types"
  const OFFSET_TYPE_ERROR: string := "[VTUInputImpl::read_cells] Wrong offset type, supports only Int64"
  const TYPES_TYPE_ERROR: string := "[VTUInputImpl::read_cells] Wrong types type"

  // ---------------------------------------------------------------------
  // read_cells
  // ---------------------------------------------------------------------

  /** One DataArray under Cells: its Name, its type attribute and the integers it decodes to. */
  datatype CellArray = CellArray(name: string, dataType: string, values: seq<int>)

  /** The three arrays as the scan over the DataArrays has left them. */
  datatype CellArrays = CellArrays(offsets: seq<int>, connectivity: seq<int>, types: seq<int>)

  const NO_ARRAYS := CellArrays([], [], [])

  /** static_cast<uint8_t> of each value: modulo 256. */
  function Bytes(xs: seq<int>): (r: seq<int>)
    ensures |r| == |xs|
    ensures forall k | 0 <= k < |xs| :: 0 <= r[k] < 256 && r[k] == xs[k] % 256
  {
    seq(|xs|, k requires 0 <= k < |xs| => xs[k] % 256)
  }

  /**
   * One DataArray of read_cells: an array named like offsets or
   * connectivity must be Int64 and replaces what was found before; a
   * UInt8 types array replaces the types found so far, while an Int32 one
   * is narrowed to bytes and appended to them; an array with any other
   * name is skipped.
   */
  function ScanStep(s: CellArrays, a: CellArray): Result<CellArrays>
  {
    if VtkInput.Match(a.name, "offsets") then
      if VtkInput.Match(a.dataType, "Int64") then Ok(s.(offsets := a.values))
      else Err(OFFSET_TYPE_ERROR)
    else if VtkInput.Match(a.name, "connectivity") then
      if VtkInput.Match(a.dataType, "Int64") then Ok(s.(connectivity := a.values))
      else Err(CONNECTIVITY_TYPE_ERROR)
    else if VtkInput.Match(a.name, "types") then
      if VtkInput.Match(a.dataType, "UInt8") then Ok(s.(types := Bytes(a.values)))
      else if VtkInput.Match(a.dataType, "Int32") then Ok(s.(types := s.types + Bytes(a.values)))
      else Err(TYPES_TYPE_ERROR)
    else Ok(s)
  }

  /** The DataArrays in document order; the first wrongly typed one throws. */
  function Scan(arrays: seq<CellArray>): Result<CellArrays>
  {
    if arrays == [] then Ok(NO_ARRAYS)
    else match Scan(arrays[..|arrays| - 1])
      case Err(m) => Err(m)
      case Ok(s) => ScanStep(s, arrays[|arrays| - 1])
  }

  /**
   * The cells of the arrays found: one per offset, cell p the connectivity
   * between offset p - 1 and offset p, with the types in file order. One
   * offset and one type per cell, and offsets the slicing can follow, are
   * required (the source only asserts the counts in debug builds).
   */
  function CellsOf(s: CellArrays, nbCells: nat): Result<(seq<seq<nat>>, seq<int>)>
  {
    if |s.offsets| != nbCells || |s.types| != nbCells then Err(OFFSETS_COUNT_ERROR)
    else if !VtkCells.WellFormed(s.offsets, |s.connectivity|) then Err(OFFSETS_RANGE_ERROR)
    else Ok((seq(nbCells, p requires 0 <= p < nbCells => VtkCells.Cell(s.connectivity, s.offsets, p)), s.types))
  }

  /** What read_cells returns for these DataArrays. */
  function CellsRead(arrays: seq<CellArray>, nbCells: nat): Result<(seq<seq<nat>>, seq<int>)>
  {
    match Scan(arrays)
    case Err(m) => Err(m)
    case Ok(s) => CellsOf(s, nbCells)
  }

  /** read_cells: one pass over the DataArrays, then the offsets slice the connectivity. */
  method ReadCells(arrays: seq<CellArray>, nbCells: nat) returns (r: Result<(seq<seq<nat>>, seq<int>)>)
    ensures r == CellsRead(arrays, nbCells)
  {
    var found := NO_ARRAYS;
    for i := 0 to |arrays|
      invariant Scan(arrays[..i]) == Ok(found)
    {
      assert arrays[..i + 1][..i] == arrays[..i];
      var next := ScanStep(found, arrays[i]);
      if next.Err? {
        ScanStaysErr(arrays, i + 1);
        assert arrays[..|arrays|] == arrays;
        return Err(next.message);
      }
      found := next.value;
    }
    assert arrays[..|arrays|] == arrays;
    if |found.offsets| != nbCells || |found.types| != nbCells {
      return Err(OFFSETS_COUNT_ERROR);
    }
    if !VtkCells.WellFormed(found.offsets, |found.connectivity|) {
      return Err(OFFSETS_RANGE_ERROR);
    }
    var cells := VtkCells.GetCellVertices(found.connectivity, found.offsets);
    assert cells == seq(nbCells, p requires 0 <= p < nbCells => VtkCells.Cell(found.connectivity, found.offsets, p));
    return Ok((cells, found.types));
  }

  /** Once a DataArray has thrown, the later ones change nothing. */
  lemma {:induction false} ScanStaysErr(arrays: seq<CellArray>, k: nat)
    requires k <= |arrays| && Scan(arrays[..k]).Err?
    ensures Scan(arrays) == Scan(arrays[..k])
    decreases |arrays| - k
  {
    if k < |arrays| {
      assert arrays[..k + 1][..k] == arrays[..k];
      ScanStaysErr(arrays, k + 1);
    } else {
      assert arrays[..k] == arrays;
    }
  }

  /** A DataArray whose name matches none of the three is ignored. */
  lemma OtherNamesIgnored(arrays: seq<CellArray>, a: CellArray)
    requires !VtkInput.Match(a.name, "offsets") && !VtkInput.Match(a.name, "connectivity") && !VtkInput.Match(a.name, "types")
    ensures Scan(arrays + [a]) == Scan(arrays)
  {
    assert (arrays + [a])[..|arrays|] == arrays;
  }

  /** An offsets array that is not Int64 makes the read throw, wherever it stands. */
  lemma WrongOffsetTypeThrows(arrays: seq<CellArray>, k: nat)
    requires k < |arrays| && VtkInput.Match(arrays[k].name, "offsets") && !VtkInput.Match(arrays[k].dataType, "Int64")
    ensures Scan(arrays).Err?
  {
    ScanAt(arrays, k);
    ScanStaysErr(arrays, k + 1);
  }

  /** A types array that is neither UInt8 nor Int32 makes the read throw, wherever it stands. */
  lemma WrongTypesTypeThrows(arrays: seq<CellArray>, k: nat)
    requires k < |arrays| && VtkInput.Match(arrays[k].name, "types")
    requires !VtkInput.Match(arrays[k].name, "offsets") && !VtkInput.Match(arrays[k].name, "connectivity")
    requires !VtkInput.Match(arrays[k].dataType, "UInt8") && !VtkInput.Match(arrays[k].dataType, "Int32")
    ensures Scan(arrays).Err?
  {
    ScanAt(arrays, k);
    ScanStaysErr(arrays, k + 1);
  }

  /** The scan up to and including DataArray k. */
  lemma ScanAt(arrays: seq<CellArray>, k: nat)
    requires k < |arrays|
    ensures Scan(arrays[..k + 1]) == match Scan(arrays[..k]) case Err(m) => Err(m) case Ok(s) => ScanStep(s, arrays[k])
  {
    assert arrays[..k + 1][..k] == arrays[..k];
  }

  /** An Int64 array named offsets replaces the offsets found so far. */
  lemma OffsetsArrayStep(s: CellArrays, values: seq<int>)
    ensures ScanStep(s, CellArray("offsets", "Int64", values)) == Ok(s.(offsets := values))
  {
    VtkInput.MatchSameLength("offsets", "offsets");
    VtkInput.MatchSameLength("Int64", "Int64");
  }

  /** An Int64 array named connectivity replaces the connectivity found so far. */
  lemma ConnectivityArrayStep(s: CellArrays, values: seq<int>)
    ensures ScanStep(s, CellArray("connectivity", "Int64", values)) == Ok(s.(connectivity := values))
  {
    VtkInput.MatchSameLength("connectivity", "offsets");
    VtkInput.MatchSameLength("connectivity", "connectivity");
    VtkInput.MatchSameLength("Int64", "Int64");
  }

  /** A UInt8 array named types replaces the types found so far, as bytes. */
  lemma TypesArrayStep(s: CellArrays, values: seq<int>)
    ensures ScanStep(s, CellArray("types", "UInt8", values)) == Ok(s.(types := Bytes(values)))
  {
    VtkInput.MatchSameLength("types", "offsets");
    VtkInput.MatchSameLength("types", "connectivity");
    VtkInput.MatchSameLength("types", "types");
    VtkInput.MatchSameLength("UInt8", "UInt8");
  }

  /** An Int32 array named types is narrowed to bytes and appended to the types found so far. */
  lemma Int32TypesArrayStep(s: CellArrays, values: seq<int>)
    ensures ScanStep(s, CellArray("types", "Int32", values)) == Ok(s.(types := s.types + Bytes(values)))
  {
    VtkInput.MatchSameLength("types", "offsets");
    VtkInput.MatchSameLength("types", "connectivity");
    VtkInput.MatchSameLength("types", "types");
    VtkInput.MatchSameLength("Int32", "UInt8");
    VtkInput.MatchSameLength("Int32", "Int32");
  }

  /** The Cells DataArrays a writer emits: offsets, connectivity and types, in that order. */
  function WrittenArrays(offsets: seq<int>, connectivity: seq<int>, types: seq<int>): seq<CellArray>
  {
    [CellArray("offsets", "Int64", offsets), CellArray("connectivity", "Int64", connectivity), CellArray("types", "UInt8", types)]
  }

  /** The three arrays a writer emits are found as they were written. */
  lemma WrittenArraysScan(offsets: seq<int>, connectivity: seq<int>, types: seq<int>)
    ensures Scan(WrittenArrays(offsets, connectivity, types)) == Ok(CellArrays(offsets, connectivity, Bytes(types)))
  {
    var a0 := CellArray("offsets", "Int64", offsets);
    var a1 := CellArray("connectivity", "Int64", connectivity);
    var a2 := CellArray("types", "UInt8", types);
    OffsetsArrayStep(NO_ARRAYS, offsets);
    assert [a0][..0] == [];
    assert Scan([a0]) == Ok(CellArrays(offsets, [], []));
    ConnectivityArrayStep(CellArrays(offsets, [], []), connectivity);
    assert [a0, a1][..1] == [a0];
    assert Scan([a0, a1]) == Ok(CellArrays(offsets, connectivity, []));
    TypesArrayStep(CellArrays(offsets, connectivity, []), types);
    assert [a0, a1, a2][..2] == [a0, a1];
  }

  /**
   * Cells written the VTK way (running-total Int64 offsets, flattened
   * Int64 connectivity, one UInt8 type per cell) are read back as the
   * same cells and types.
   */
  lemma WrittenCellsReadBack(cells: seq<seq<nat>>, types: seq<int>)
    requires |types| == |cells| && forall p | 0 <= p < |types| :: 0 <= types[p] < 256
    requires forall p | 0 <= p < |cells| :: VtkCells.IndexValues(cells[p])
    ensures CellsRead(WrittenArrays(VtkCells.Offsets(cells), VtkCells.Flatten(cells), types), |cells|) == Ok((cells, types))
  {
    var offsets, connectivity := VtkCells.Offsets(cells), VtkCells.Flatten(cells);
    BytesOfBytes(types);
    WrittenArraysScan(offsets, connectivity, types);
    WrittenCellsSlice(cells, types);
  }

  /** Arrays that slice into some cells are read back as those cells. */
  lemma ReadBackOf(offsets: seq<int>, connectivity: seq<int>, types: seq<int>, cells: seq<seq<nat>>)
    requires forall k | 0 <= k < |types| :: 0 <= types[k] < 256
    requires CellsOf(CellArrays(offsets, connectivity, types), |cells|) == Ok((cells, types))
    ensures CellsRead(WrittenArrays(offsets, connectivity, types), |cells|) == Ok((cells, types))
  {
    WrittenArraysRead(offsets, connectivity, types, |cells|);
  }

  /** The three arrays a writer emits read as the cells their values slice into. */
  lemma WrittenArraysRead(offsets: seq<int>, connectivity: seq<int>, types: seq<int>, nbCells: nat)
    requires forall k | 0 <= k < |types| :: 0 <= types[k] < 256
    ensures CellsRead(WrittenArrays(offsets, connectivity, types), nbCells)
            == CellsOf(CellArrays(offsets, connectivity, types), nbCells)
  {
    WrittenArraysScan(offsets, connectivity, types);
    BytesOfBytes(types);
  }

  /** Values that are already bytes are left as they are. */
  lemma BytesOfBytes(xs: seq<int>)
    requires forall k | 0 <= k < |xs| :: 0 <= xs[k] < 256
    ensures Bytes(xs) == xs
  {
  }

  /** The running-total offsets slice the flattened connectivity back into the cells. */
  lemma WrittenCellsSlice(cells: seq<seq<nat>>, types: seq<int>)
    requires |types| == |cells|
    requires forall p | 0 <= p < |cells| :: VtkCells.IndexValues(cells[p])
    ensures CellsOf(CellArrays(VtkCells.Offsets(cells), VtkCells.Flatten(cells), types), |cells|) == Ok((cells, types))
  {
    var s := CellArrays(VtkCells.Offsets(cells), VtkCells.Flatten(cells), types);
    VtkCells.CellsRoundTrip(cells);
    var read := seq(|cells|, p requires 0 <= p < |cells| => VtkCells.Cell(s.connectivity, s.offsets, p));
    assert read == cells;
  }

  // ---------------------------------------------------------------------
  // Solid cells
  // ---------------------------------------------------------------------

  datatype Solid = Tetrahedron | Hexahedron | Prism | Pyramid

  /** Number of vertices of each solid cell. */
  function Arity(k: Solid): nat
  {
    match k
    case Tetrahedron => 4
    case Hexahedron => 8
    case Prism => 6
    case Pyramid => 5
  }

  /** The VTK face tables, in VTK's local vertex numbering. */
  function Faces(k: Solid): seq<seq<nat>>
  {
    match k
    case Tetrahedron => [[1, 3, 2], [0, 2, 3], [3, 1, 0], [0, 1, 2]]
    case Hexahedron => [[0, 4, 5, 1], [1, 5, 7, 3], [3, 7, 6, 2], [2, 6, 4, 0], [4, 6, 7, 5], [0, 1, 3, 2]]
    case Prism => [[0, 2, 1], [3, 4, 5], [0, 3, 5, 2], [1, 2, 5, 4], [0, 1, 4, 3]]
    case Pyramid => [[0, 4, 1], [1, 4, 2], [2, 4, 3], [3, 4, 0], [0, 1, 2, 3]]
  }

  /** The tables have 4, 6, 5 and 5 faces whose indices are vertices of the cell. */
  lemma FaceTableShape(k: Solid)
    ensures |Faces(k)| == (match k case Tetrahedron => 4 case Hexahedron => 6 case _ => 5)
    ensures MshCommon.IndicesBelow(Faces(k), Arity(k))
  {
  }

  /** Every vertex lies on three faces, except the pyramid apex, which lies on four. */
  lemma FaceIncidence(k: Solid, v: nat)
    requires v < Arity(k)
    ensures MshCommon.FacesAround(Faces(k), v) == if k == Pyramid && v == 4 then 4 else 3
  {
    match k
    case Tetrahedron => TetrahedronIncidence(v);
    case Hexahedron => HexahedronIncidence(v);
    case Prism => PrismIncidence(v);
    case Pyramid => PyramidIncidence(v);
  }

  lemma TetrahedronIncidence(v: nat)
    requires v < 4
    ensures MshCommon.FacesAround(Faces(Tetrahedron), v) == 3
  {
    var fs := Faces(Tetrahedron);
    if v == 0 { assert MshCommon.FacesAroundUpTo(fs, 0, 4) == 3; }
    else if v == 1 { assert MshCommon.FacesAroundUpTo(fs, 1, 4) == 3; }
    else if v == 2 { assert MshCommon.FacesAroundUpTo(fs, 2, 4) == 3; }
    else { assert MshCommon.FacesAroundUpTo(fs, 3, 4) == 3; }
  }

  lemma HexahedronIncidence(v: nat)
    requires v < 8
    ensures MshCommon.FacesAround(Faces(Hexahedron), v) == 3
  {
    var fs := Faces(Hexahedron);
    if v == 0 { assert MshCommon.FacesAroundUpTo(fs, 0, 6) == 3; }
    else if v == 1 { assert MshCommon.FacesAroundUpTo(fs, 1, 6) == 3; }
    else if v == 2 { assert MshCommon.FacesAroundUpTo(fs, 2, 6) == 3; }
    else if v == 3 { assert MshCommon.FacesAroundUpTo(fs, 3, 6) == 3; }
    else if v == 4 { assert MshCommon.FacesAroundUpTo(fs, 4, 6) == 3; }
    else if v == 5 { assert MshCommon.FacesAroundUpTo(fs, 5, 6) == 3; }
    else if v == 6 { assert MshCommon.FacesAroundUpTo(fs, 6, 6) == 3; }
    else { assert MshCommon.FacesAroundUpTo(fs, 7, 6) == 3; }
  }

  lemma PrismIncidence(v: nat)
    requires v < 6
    ensures MshCommon.FacesAround(Faces(Prism), v) == 3
  {
    var fs := Faces(Prism);
    if v == 0 { assert MshCommon.FacesAroundUpTo(fs, 0, 5) == 3; }
    else if v == 1 { assert MshCommon.FacesAroundUpTo(fs, 1, 5) == 3; }
    else if v == 2 { assert MshCommon.FacesAroundUpTo(fs, 2, 5) == 3; }
    else if v == 3 { assert MshCommon.FacesAroundUpTo(fs, 3, 5) == 3; }
    else if v == 4 { assert MshCommon.FacesAroundUpTo(fs, 4, 5) == 3; }
    else { assert MshCommon.FacesAroundUpTo(fs, 5, 5) == 3; }
  }

  lemma PyramidIncidence(v: nat)
    requires v < 5
    ensures MshCommon.FacesAround(Faces(Pyramid), v) == if v == 4 then 4 else 3
  {
    var fs := Faces(Pyramid);
    if v == 0 { assert MshCommon.FacesAroundUpTo(fs, 0, 5) == 3; }
    else if v == 1 { assert MshCommon.FacesAroundUpTo(fs, 1, 5) == 3; }
    else if v == 2 { assert MshCommon.FacesAroundUpTo(fs, 2, 5) == 3; }
    else if v == 3 { assert MshCommon.FacesAroundUpTo(fs, 3, 5) == 3; }
    else { assert MshCommon.FacesAroundUpTo(fs, 4, 5) == 4; }
  }

  /** The VTK cell type codes of the solids: voxel (11) and hexahedron (12) share a table. */
  function SolidOfCode(code: int): (r: Option<Solid>)
    ensures r.Some? <==> 10 <= code <= 14
  {
    if code == 10 then Some(Tetrahedron)
    else if code == 11 || code == 12 then Some(Hexahedron)
    else if code == 13 then Some(Prism)
    else if code == 14 then Some(Pyramid)
    else None
  }

  /** flat_hash_map::emplace: a key already present keeps its value. */
  function Emplace<V>(m: map<int, V>, key: int, value: V): (r: map<int, V>)
    ensures r.Keys == m.Keys + {key}
    ensures r[key] == if key in m then m[key] else value
    ensures forall k | k in m :: r[k] == m[k]
  {
    if key in m then m else m[key := value]
  }

  /** The table of the older reader's constructor: every solid code with its faces. */
  function AllSolids(): map<int, seq<seq<nat>>>
  {
    map[10 := Faces(Tetrahedron), 11 := Faces(Hexahedron), 12 := Faces(Hexahedron),
        13 := Faces(Prism), 14 := Faces(Pyramid)]
  }

  /** A code is in the full table exactly when it is a solid's, and maps to that solid's faces. */
  lemma AllSolidsTable(code: int)
    ensures code in AllSolids() <==> SolidOfCode(code).Some?
    ensures code in AllSolids() ==> AllSolids()[code] == Faces(SolidOfCode(code).value)
  {
  }

  /** A created polyhedron: its vertices and the face table it was created with. */
  datatype Polyhedron = Polyhedron(vertices: seq<nat>, faces: seq<seq<nat>>)

  /** The polyhedra build_polyhedra creates: one per cell whose type is registered, in order. */
  function Kept(cells: seq<seq<nat>>, types: seq<int>, elements: map<int, seq<seq<nat>>>): (r: seq<Polyhedron>)
    requires |types| == |cells|
    ensures |r| <= |cells|
  {
    if cells == [] then []
    else
      var n := |cells| - 1;
      Kept(cells[..n], types[..n], elements)
        + (if types[n] in elements then [Polyhedron(cells[n], elements[types[n]])] else [])
  }

  /** Each polyhedron created carries the face table registered for its cell's type. */
  lemma {:induction false} KeptRegistered(cells: seq<seq<nat>>, types: seq<int>, elements: map<int, seq<seq<nat>>>)
    requires |types| == |cells|
    ensures forall q | 0 <= q < |Kept(cells, types, elements)| :: Kept(cells, types, elements)[q].faces in elements.Values
    decreases |cells|
  {
    if cells != [] {
      var n := |cells| - 1;
      KeptRegistered(cells[..n], types[..n], elements);
    }
  }

  /** When every type is registered, every cell becomes a polyhedron, in order. */
  lemma {:induction false} KeptAll(cells: seq<seq<nat>>, types: seq<int>, elements: map<int, seq<seq<nat>>>)
    requires |types| == |cells| && forall p | 0 <= p < |types| :: types[p] in elements
    ensures |Kept(cells, types, elements)| == |cells|
    ensures forall p | 0 <= p < |cells| :: Kept(cells, types, elements)[p] == Polyhedron(cells[p], elements[types[p]])
    decreases |cells|
  {
    if cells != [] {
      var n := |cells| - 1;
      KeptAll(cells[..n], types[..n], elements);
    }
  }

  /** Nothing is created exactly when no type is registered. */
  lemma {:induction false} KeptNone(cells: seq<seq<nat>>, types: seq<int>, elements: map<int, seq<seq<nat>>>)
    requires |types| == |cells|
    ensures Kept(cells, types, elements) == [] <==> forall p | 0 <= p < |types| :: types[p] !in elements
    decreases |cells|
  {
    if cells != [] {
      var n := |cells| - 1;
      KeptNone(cells[..n], types[..n], elements);
      assert forall p | 0 <= p < n :: types[..n][p] == types[p];
    }
  }

  /**
   * The solid readers (VTUSolidInput and the older VTUInputImpl of
   * private/vtu_input_impl.h, which behave alike): the codes enabled so
   * far with their face tables, and the polyhedra created.
   */
  class SolidReader {
    var elements: map<int, seq<seq<nat>>>
    var polyhedra: seq<Polyhedron>

    constructor()
      ensures elements == map[] && polyhedra == []
    {
      elements := map[];
      polyhedra := [];
    }

    method EnableTetrahedron()
      modifies this
      ensures elements == Emplace(old(elements), 10, Faces(Tetrahedron)) && polyhedra == old(polyhedra)
    {
      elements := Emplace(elements, 10, Faces(Tetrahedron));
    }

    /** Voxels (11) and hexahedra (12) share one table. */
    method EnableHexahedron()
      modifies this
      ensures elements == Emplace(Emplace(old(elements), 11, Faces(Hexahedron)), 12, Faces(Hexahedron))
      ensures polyhedra == old(polyhedra)
    {
      elements := Emplace(elements, 11, Faces(Hexahedron));
      elements := Emplace(elements, 12, Faces(Hexahedron));
    }

    method EnablePrism()
      modifies this
      ensures elements == Emplace(old(elements), 13, Faces(Prism)) && polyhedra == old(polyhedra)
    {
      elements := Emplace(elements, 13, Faces(Prism));
    }

    method EnablePyramid()
      modifies this
      ensures elements == Emplace(old(elements), 14, Faces(Pyramid)) && polyhedra == old(polyhedra)
    {
      elements := Emplace(elements, 14, Faces(Pyramid));
    }

    /**
     * build_polyhedra: one polyhedron per cell whose type is enabled, in
     * order, with that type's face table; other cells are skipped. Returns
     * the number of polyhedra before the call, where the cell data goes.
     */
    method BuildPolyhedra(cells: seq<seq<nat>>, types: seq<int>) returns (offset: nat)
      requires |types| == |cells|
      modifies this
      ensures offset == |old(polyhedra)|
      ensures polyhedra == old(polyhedra) + Kept(cells, types, elements)
      ensures elements == old(elements)
    {
      offset := |polyhedra|;
      for p := 0 to |cells|
        invariant elements == old(elements)
        invariant polyhedra == old(polyhedra) + Kept(cells[..p], types[..p], elements)
      {
        assert cells[..p + 1][..p] == cells[..p] && types[..p + 1][..p] == types[..p];
        if types[p] in elements {
          polyhedra := polyhedra + [Polyhedron(cells[p], elements[types[p]])];
        }
      }
      assert cells[..|cells|] == cells && types[..|types|] == types;
    }

    /** is_vtk_cells_loadable on the types read: some type is enabled. */
    method IsLoadable(types: seq<int>) returns (b: bool)
      ensures b <==> exists p | 0 <= p < |types| :: types[p] in elements
    {
      for p := 0 to |types|
        invariant forall q | 0 <= q < p :: types[q] !in elements
      {
        if types[p] in elements {
          return true;
        }
      }
      return false;
    }

    /**
     * read_vtk_cells: NumberOfCells, the cells, then the polyhedra; the
     * result is the offset where the cell data is attached.
     */
    method ReadVtkCells(numberOfCells: string, arrays: seq<CellArray>) returns (r: Result<nat>)
      modifies this
      ensures elements == old(elements)
      ensures r.Ok? <==> VtkInput.ReadAttribute(numberOfCells).Ok? && CellsRead(arrays, VtkInput.ReadAttribute(numberOfCells).value).Ok?
      ensures r.Ok? ==> (r.value == |old(polyhedra)| &&
        var read := CellsRead(arrays, VtkInput.ReadAttribute(numberOfCells).value).value;
        polyhedra == old(polyhedra) + Kept(read.0, read.1, elements))
      ensures r.Err? ==> polyhedra == old(polyhedra)
    {
      var nb := VtkInput.ReadAttribute(numberOfCells);
      if nb.Err? {
        return Err(nb.message);
      }
      var read := ReadCells(arrays, nb.value);
      if read.Err? {
        return Err(read.message);
      }
      var offset := BuildPolyhedra(read.value.0, read.value.1);
      return Ok(offset);
    }
  }

  /** Enabling the four solids on a fresh reader registers exactly the full table. */
  lemma EnableAll()
    ensures Emplace(Emplace(Emplace(Emplace(Emplace(map[], 10, Faces(Tetrahedron)),
      11, Faces(Hexahedron)), 12, Faces(Hexahedron)), 13, Faces(Prism)), 14, Faces(Pyramid)) == AllSolids()
  {
  }

  /** A piece is loadable exactly when building it creates at least one polyhedron. */
  lemma LoadableIffBuilds(cells: seq<seq<nat>>, types: seq<int>, elements: map<int, seq<seq<nat>>>)
    requires |types| == |cells|
    ensures Kept(cells, types, elements) != [] <==> exists p | 0 <= p < |types| :: types[p] in elements
  {
    KeptNone(cells, types, elements);
  }

  // ---------------------------------------------------------------------
  // The oldest solid reader (src/geode/io/mesh/vtu_input.cpp)
  // ---------------------------------------------------------------------

  /**
   * read_polyhedra of the oldest reader: no type checks, the three arrays
   * read as int64 and kept as they are.
   */
  function ScanUnchecked(arrays: seq<CellArray>): CellArrays
  {
    if arrays == [] then NO_ARRAYS
    else
      var s := ScanUnchecked(arrays[..|arrays| - 1]);
      var a := arrays[|arrays| - 1];
      if VtkInput.Match(a.name, "offsets") then s.(offsets := a.values)
      else if VtkInput.Match(a.name, "connectivity") then s.(connectivity := a.values)
      else if VtkInput.Match(a.name, "types") then s.(types := a.values)
      else s
  }

  /** Whether a DataArray is taken as the types array (its name matches neither earlier name). */
  predicate IsTypesArray(a: CellArray)
  {
    !VtkInput.Match(a.name, "offsets") && !VtkInput.Match(a.name, "connectivity") && VtkInput.Match(a.name, "types")
  }

  /** Number of DataArrays taken as types arrays. */
  function NbTypesArrays(arrays: seq<CellArray>): nat
  {
    if arrays == [] then 0
    else NbTypesArrays(arrays[..|arrays| - 1]) + (if IsTypesArray(arrays[|arrays| - 1]) then 1 else 0)
  }

  /**
   * With no wrongly typed array, both scans find the same offsets and
   * connectivity; with no types array both find no types, and with a
   * single one the checked scan finds the oldest one's types narrowed to
   * bytes (two or more Int32 types arrays are concatenated by the checked
   * scan only).
   */
  lemma {:induction false} ScansAgree(arrays: seq<CellArray>)
    requires Scan(arrays).Ok?
    ensures Scan(arrays).value.offsets == ScanUnchecked(arrays).offsets
    ensures Scan(arrays).value.connectivity == ScanUnchecked(arrays).connectivity
    ensures NbTypesArrays(arrays) == 0 ==> Scan(arrays).value.types == [] == ScanUnchecked(arrays).types
    ensures NbTypesArrays(arrays) <= 1 ==> Scan(arrays).value.types == Bytes(ScanUnchecked(arrays).types)
  {
    if arrays != [] {
      var n := |arrays| - 1;
      ScansAgree(arrays[..n]);
    }
  }

  /** Two Int32 types arrays: the checked scan keeps both, the oldest scan only the second. */
  lemma Int32TypesConcatenated(first: seq<int>, second: seq<int>)
    ensures Scan([CellArray("types", "Int32", first), CellArray("types", "Int32", second)])
            == Ok(CellArrays([], [], Bytes(first) + Bytes(second)))
    ensures ScanUnchecked([CellArray("types", "Int32", first), CellArray("types", "Int32", second)]).types == second
  {
    var a0, a1 := CellArray("types", "Int32", first), CellArray("types", "Int32", second);
    Int32TypesArrayStep(NO_ARRAYS, first);
    assert [a0][..0] == [];
    assert [] + Bytes(first) == Bytes(first);
    assert Scan([a0]) == Ok(CellArrays([], [], Bytes(first)));
    Int32TypesArrayStep(CellArrays([], [], Bytes(first)), second);
    assert [a0, a1][..1] == [a0];
    VtkInput.MatchSameLength("types", "offsets");
    VtkInput.MatchSameLength("types", "connectivity");
    VtkInput.MatchSameLength("types", "types");
    assert ScanUnchecked([a0]).types == first;
  }

  /**
   * The oldest reader: its constructor registers every solid code, and
   * build_polyhedra catches the error of an unknown type, logs it and
   * carries on.
   */
  class LegacySolidReader {
    const elements: map<int, seq<seq<nat>>>
    var polyhedra: seq<Polyhedron>

    constructor()
      ensures elements == AllSolids() && polyhedra == []
    {
      elements := AllSolids();
      polyhedra := [];
    }

    /**
     * build_polyhedra: the polyhedra of the known types are created; the
     * ids handed to the adjacency computation run from the previous count,
     * one per cell, whether or not the cell was created.
     */
    method BuildPolyhedra(cells: seq<seq<nat>>, types: seq<int>) returns (newIds: seq<nat>)
      requires |types| == |cells|
      modifies this
      ensures polyhedra == old(polyhedra) + Kept(cells, types, elements)
      ensures |newIds| == |cells| && forall i | 0 <= i < |cells| :: newIds[i] == |old(polyhedra)| + i
    {
      newIds := [];
      for i := 0 to |cells|
        invariant |newIds| == i && forall j | 0 <= j < i :: newIds[j] == |old(polyhedra)| + j
      {
        newIds := newIds + [|polyhedra| + i];
      }
      for p := 0 to |cells|
        invariant polyhedra == old(polyhedra) + Kept(cells[..p], types[..p], elements)
      {
        assert cells[..p + 1][..p] == cells[..p] && types[..p + 1][..p] == types[..p];
        if types[p] in elements {
          polyhedra := polyhedra + [Polyhedron(cells[p], elements[types[p]])];
        }
      }
      assert cells[..|cells|] == cells && types[..|types|] == types;
    }
  }

  /**
   * When a cell of an unknown type is skipped, the last id handed to the
   * adjacency computation names no polyhedron.
   */
  lemma SkippedIdsDangle(before: nat, cells: seq<seq<nat>>, types: seq<int>, p: nat)
    requires |types| == |cells| && p < |cells| && types[p] !in AllSolids()
    ensures before + |cells| - 1 >= before + |Kept(cells, types, AllSolids())|
  {
    KeptMissing(cells, types, AllSolids(), p);
  }

  /** A skipped cell makes the polyhedra created fewer than the cells. */
  lemma {:induction false} KeptMissing(cells: seq<seq<nat>>, types: seq<int>, elements: map<int, seq<seq<nat>>>, p: nat)
    requires |types| == |cells| && p < |cells| && types[p] !in elements
    ensures |Kept(cells, types, elements)| < |cells|
    decreases |cells|
  {
    var n := |cells| - 1;
    if p < n {
      KeptMissing(cells[..n], types[..n], elements, p);
    }
  }

  // ---------------------------------------------------------------------
  // Surfaces
  // ---------------------------------------------------------------------

  /** The polygons build_polygons creates: cells whose type is enabled with their exact size. */
  function KeptPolygons(cells: seq<seq<nat>>, types: seq<int>, elements: map<int, nat>): (r: seq<seq<nat>>)
    requires |types| == |cells|
    ensures |r| <= |cells|
  {
    if cells == [] then []
    else
      var n := |cells| - 1;
      KeptPolygons(cells[..n], types[..n], elements)
        + (if types[n] in elements && elements[types[n]] == |cells[n]| then [cells[n]] else [])
  }

  /** Every polygon created has a size registered for some enabled type. */
  lemma {:induction false} KeptPolygonSizes(cells: seq<seq<nat>>, types: seq<int>, elements: map<int, nat>)
    requires |types| == |cells|
    ensures forall q | 0 <= q < |KeptPolygons(cells, types, elements)| :: |KeptPolygons(cells, types, elements)[q]| in elements.Values
    decreases |cells|
  {
    if cells != [] {
      var n := |cells| - 1;
      KeptPolygonSizes(cells[..n], types[..n], elements);
    }
  }

  /** Cells of an enabled type and of its registered size all become polygons, in order. */
  lemma {:induction false} KeptPolygonsAll(cells: seq<seq<nat>>, types: seq<int>, elements: map<int, nat>)
    requires |types| == |cells|
    requires forall p | 0 <= p < |types| :: types[p] in elements && elements[types[p]] == |cells[p]|
    ensures KeptPolygons(cells, types, elements) == cells
    decreases |cells|
  {
    if cells != [] {
      var n := |cells| - 1;
      KeptPolygonsAll(cells[..n], types[..n], elements);
      assert cells[..n] + [cells[n]] == cells;
    }
  }

  /** A triangle code (5) cell with four vertices is not created. */
  lemma SizeMismatchSkipped(cell: seq<nat>)
    requires |cell| == 4
    ensures KeptPolygons([cell], [5], map[5 := 3, 9 := 4]) == []
  {
    assert [cell][..0] == [];
  }

  /** VTUSurfaceInput: the enabled polygon codes with their sizes, and the polygons created. */
  class SurfaceReader {
    var elements: map<int, nat>
    var polygons: seq<seq<nat>>

    constructor()
      ensures elements == map[] && polygons == []
    {
      elements := map[];
      polygons := [];
    }

    /** Triangles: code 5, three vertices. */
    method EnableTriangle()
      modifies this
      ensures elements == Emplace(old(elements), 5, 3) && polygons == old(polygons)
    {
      elements := Emplace(elements, 5, 3);
    }

    /** Quadrangles: code 9, four vertices. */
    method EnableQuad()
      modifies this
      ensures elements == Emplace(old(elements), 9, 4) && polygons == old(polygons)
    {
      elements := Emplace(elements, 9, 4);
    }

    /**
     * build_polygons: a polygon for each cell whose type is enabled and
     * whose vertex count is the registered one; returns the previous
     * polygon count, where the cell data goes.
     */
    method BuildPolygons(cells: seq<seq<nat>>, types: seq<int>) returns (offset: nat)
      requires |types| == |cells|
      modifies this
      ensures offset == |old(polygons)|
      ensures polygons == old(polygons) + KeptPolygons(cells, types, elements)
      ensures elements == old(elements)
    {
      offset := |polygons|;
      for p := 0 to |cells|
        invariant elements == old(elements)
        invariant polygons == old(polygons) + KeptPolygons(cells[..p], types[..p], elements)
      {
        assert cells[..p + 1][..p] == cells[..p] && types[..p + 1][..p] == types[..p];
        if types[p] in elements && elements[types[p]] == |cells[p]| {
          polygons := polygons + [cells[p]];
        }
      }
      assert cells[..|cells|] == cells && types[..|types|] == types;
    }
  }
}
