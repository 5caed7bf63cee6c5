/**
 * The mesh part of the VTK XML readers: the points of every `Piece` are
 * read (type and component checks, then the coordinates three by three)
 * and appended to the mesh's vertices, each piece's vertices numbered
 * after those of the pieces before it. Coordinates are `real`; how the
 * binary Float32/Float64 bytes become numbers is foreign and is a
 * parameter, like the decimal conversion of an ascii coordinate.
 */
module VtkMeshInput {
  import opened Wrappers
  import opened Text
  import VtkInput
  import VtkAscii

  // Messages of the exceptions the reader throws
  const COORDINATE_ERROR: string := "[VTKInput::read_ascii_coordinates] Failed to read coordinate"
  const POINTS_TYPE_ERROR: string := "[VTKInput::read_points] Cannot read points of type "
  const DIMENSION_ERROR: string := "[VTKInput::read_points] Trying to import 2D VTK object into a 3D Surface is not allowed"
  const COORDINATES_COUNT_ERROR: string := "[VTKInput::read_points] Wrong number of coordinates"

  /** A point of the mesh: three coordinates. */
  datatype Point = Point(x: real, y: real, z: real)

  /** A new vertex sits at the origin until its point is set. */
  const ORIGIN: Point := Point(0.0, 0.0, 0.0)

  /** Point3D::set_value(c, v). */
  function SetCoordinate(p: Point, c: nat, v: real): Point
    requires c < 3
  {
    if c == 0 then p.(x := v) else if c == 1 then p.(y := v) else p.(z := v)
  }

  /** The point made of coordinates 3p, 3p + 1 and 3p + 2. */
  function PointAt(coords: seq<real>, p: nat): Point
    requires 3 * p + 3 <= |coords|
  {
    Point(coords[3 * p], coords[3 * p + 1], coords[3 * p + 2])
  }

  /** The coordinates of the points, three per point, in order. */
  function Coordinates(points: seq<Point>): (r: seq<real>)
    ensures |r| == 3 * |points|
  {
    if points == [] then []
    else
      var last := points[|points| - 1];
      Coordinates(points[..|points| - 1]) + [last.x, last.y, last.z]
  }

  // ---------------------------------------------------------------------
  // get_points
  // ---------------------------------------------------------------------

  /**
   * get_points: point p takes coordinates 3p, 3p + 1, 3p + 2; coordinates
   * left over after the last full triple are not used.
   */
  method GetPoints(coords: seq<real>) returns (points: seq<Point>)
    ensures |points| == |coords| / 3
    ensures forall p | 0 <= p < |points| :: 3 * p + 3 <= |coords| && points[p] == PointAt(coords, p)
  {
    var nbPoints := |coords| / 3;
    points := [];
    for p := 0 to nbPoints
      invariant |points| == p
      invariant forall q | 0 <= q < p :: 3 * q + 3 <= |coords| && points[q] == PointAt(coords, q)
    {
      assert 3 * p + 3 <= |coords|;
      var point := ORIGIN;
      for c := 0 to 3
        invariant point.x == (if c > 0 then coords[3 * p] else 0.0)
        invariant point.y == (if c > 1 then coords[3 * p + 1] else 0.0)
        invariant point.z == (if c > 2 then coords[3 * p + 2] else 0.0)
      {
        point := SetCoordinate(point, c, coords[3 * p + c]);
      }
      points := points + [point];
    }
  }

  /** Coordinates of the first k points taken from a flat array are that array's first 3k entries. */
  lemma {:induction false} CoordinatesOfPrefix(coords: seq<real>, points: seq<Point>, k: nat)
    requires k <= |points| && 3 * |points| <= |coords|
    requires forall p | 0 <= p < |points| :: points[p] == PointAt(coords, p)
    ensures Coordinates(points[..k]) == coords[..3 * k]
  {
    if k > 0 {
      CoordinatesOfPrefix(coords, points, k - 1);
      assert points[..k][..k - 1] == points[..k - 1];
      assert coords[..3 * k] == coords[..3 * (k - 1)] + [coords[3 * k - 3], coords[3 * k - 2], coords[3 * k - 1]];
    }
  }

  /**
   * The points read back give the coordinates they were read from, all of
   * them when their number is a multiple of 3.
   */
  lemma PointsRoundTrip(coords: seq<real>, points: seq<Point>)
    requires |points| == |coords| / 3
    requires forall p | 0 <= p < |points| :: 3 * p + 3 <= |coords| && points[p] == PointAt(coords, p)
    ensures Coordinates(points) == coords[..3 * (|coords| / 3)]
    ensures |coords| % 3 == 0 ==> Coordinates(points) == coords
  {
    CoordinatesOfPrefix(coords, points, |points|);
    assert points[..|points|] == points;
  }

  /** Written out three by three, points read back as themselves. */
  lemma {:induction false} PointsOfCoordinates(points: seq<Point>, p: nat)
    requires p < |points|
    ensures 3 * p + 3 <= |Coordinates(points)| && PointAt(Coordinates(points), p) == points[p]
    decreases |points|
  {
    var n := |points| - 1;
    if p < n {
      PointsOfCoordinates(points[..n], p);
    }
  }

  // ---------------------------------------------------------------------
  // read_points: the checks and the choice of decoder
  // ---------------------------------------------------------------------

  /** How the coordinates of a piece are decoded. */
  datatype PointsEncoding =
    | AppendedFloat32 | AppendedFloat64
    | AsciiCoordinates
    | InlineFloat32 | InlineFloat64

  /**
   * read_points: the component count must read as an index and be 3, the
   * type must match Float32 or Float64; the format then picks the appended
   * data, the ascii text or the inline base64 text, Float32 winning when
   * the type matches it.
   */
  function PointsEncodingOf(dataType: string, nbComponents: string, format: string): (r: Result<PointsEncoding>)
    ensures r.Ok? <==> (VtkInput.ReadAttribute(nbComponents) == Ok(3) &&
      (VtkInput.Match(dataType, "Float32") || VtkInput.Match(dataType, "Float64")))
    ensures r.Ok? && VtkInput.Match(format, "appended") ==> r.value.AppendedFloat32? || r.value.AppendedFloat64?
    ensures r.Ok? && !VtkInput.Match(format, "appended") && VtkInput.Match(format, "ascii") ==> r.value == AsciiCoordinates
    ensures r.Ok? && !VtkInput.Match(format, "appended") && !VtkInput.Match(format, "ascii") ==>
      r.value.InlineFloat32? || r.value.InlineFloat64?
    ensures r.Ok? && r.value != AsciiCoordinates ==>
      ((r.value.AppendedFloat32? || r.value.InlineFloat32?) <==> VtkInput.Match(dataType, "Float32"))
  {
    match VtkInput.ReadAttribute(nbComponents)
    case Err(m) => Err(m)
    case Ok(nb) =>
      var float32 := VtkInput.Match(dataType, "Float32");
      if !(float32 || VtkInput.Match(dataType, "Float64")) then
        Err(POINTS_TYPE_ERROR + dataType + ". Only Float32 and Float64 are accepted")
      else if nb != 3 then
        Err(DIMENSION_ERROR)
      else if VtkInput.Match(format, "appended") then
        if float32 then Ok(AppendedFloat32) else Ok(AppendedFloat64)
      else if VtkInput.Match(format, "ascii") then Ok(AsciiCoordinates)
      else if float32 then Ok(InlineFloat32) else Ok(InlineFloat64)
  }

  /** A 2D file (two components) is refused. */
  lemma TwoComponentsRefused()
    ensures PointsEncodingOf("Float64", "2", "ascii").Err?
  {
    NatToStringRoundTrip(2);
  }

  /** An integer point type is refused. */
  lemma IntegerPointsRefused()
    ensures PointsEncodingOf("Int32", "3", "ascii").Err?
  {
    assert !VtkInput.Match("Int32", "Float32") && !VtkInput.Match("Int32", "Float64");
  }

  /** Appended Float64 coordinates with three components are accepted. */
  lemma Float64Appended()
    ensures PointsEncodingOf("Float64", "3", "appended") == Ok(AppendedFloat64)
  {
    NatToStringRoundTrip(3);
    assert "Float64"[..7] == "Float64" && "Float64"[0..] == "Float64";
    assert "appended"[..8] == "appended" && "appended"[0..] == "appended";
    assert "Float64"[..7][5] != "Float32"[5];
  }

  /**
   * read_ascii_coordinates: the stripped, collapsed text is cut at single
   * spaces and every piece must convert to a number (absl::SimpleAtod,
   * here the parameter `atod`), otherwise the read throws.
   */
  method ReadAsciiCoordinates(data: string, atod: string -> Option<real>) returns (r: Result<seq<real>>)
    ensures r.Ok? <==> forall k | 0 <= k < |VtkAscii.AsciiTokens(data)| :: atod(VtkAscii.AsciiTokens(data)[k]).Some?
    ensures r.Ok? ==> |r.value| == |VtkAscii.AsciiTokens(data)|
    ensures r.Ok? ==> forall k | 0 <= k < |r.value| :: atod(VtkAscii.AsciiTokens(data)[k]) == Some(r.value[k])
  {
    var tokens := VtkAscii.AsciiTokens(data);
    var results: seq<real> := [];
    for i := 0 to |tokens|
      invariant |results| == i
      invariant forall k | 0 <= k < i :: atod(tokens[k]) == Some(results[k])
    {
      var coord := atod(tokens[i]);
      if coord.None? {
        return Err(COORDINATE_ERROR);
      }
      results := results + [coord.value];
    }
    return Ok(results);
  }

  // ---------------------------------------------------------------------
  // The mesh's vertices, piece after piece
  // ---------------------------------------------------------------------

  /** What a piece gives: its NumberOfPoints text and its decoded coordinates. */
  datatype Piece = Piece(numberOfPoints: string, coords: seq<real>)

  /** The points piece `piece` adds: its first NumberOfPoints points; an error when the attribute does not read or too few coordinates were decoded. */
  function PiecePoints(piece: Piece): (r: Result<seq<Point>>)
    ensures r.Ok? <==> (VtkInput.ReadAttribute(piece.numberOfPoints).Ok? &&
      VtkInput.ReadAttribute(piece.numberOfPoints).value <= |piece.coords| / 3)
    ensures r.Ok? ==> (|r.value| == VtkInput.ReadAttribute(piece.numberOfPoints).value &&
      forall p | 0 <= p < |r.value| :: 3 * p + 3 <= |piece.coords| && r.value[p] == PointAt(piece.coords, p))
  {
    match VtkInput.ReadAttribute(piece.numberOfPoints)
    case Err(m) => Err(m)
    case Ok(nb) =>
      if nb <= |piece.coords| / 3 then Ok(seq(nb, p requires 0 <= p < nb => PointAt(piece.coords, p)))
      else Err(COORDINATES_COUNT_ERROR)
  }

  /** The points all the pieces add, in piece order; the first failing piece's error otherwise. */
  function AllPoints(pieces: seq<Piece>): Result<seq<Point>>
  {
    if pieces == [] then Ok([])
    else match AllPoints(pieces[..|pieces| - 1])
      case Err(m) => Err(m)
      case Ok(before) =>
        match PiecePoints(pieces[|pieces| - 1])
        case Err(m) => Err(m)
        case Ok(pts) => Ok(before + pts)
  }

  /** The pieces read fine exactly when every one of them does. */
  lemma {:induction false} AllPointsOk(pieces: seq<Piece>)
    ensures AllPoints(pieces).Ok? <==> forall i | 0 <= i < |pieces| :: PiecePoints(pieces[i]).Ok?
  {
    if pieces != [] {
      var n := |pieces| - 1;
      AllPointsOk(pieces[..n]);
      assert forall i | 0 <= i < n :: pieces[..n][i] == pieces[i];
    }
  }

  /** The mesh's vertices, as the mesh builder sees them. */
  class MeshPoints {
    var points: seq<Point>

    constructor ()
      ensures points == []
    {
      points := [];
    }

    /** create_vertices: n new vertices at the origin; the index of the first one is returned. */
    method CreateVertices(n: nat) returns (offset: nat)
      modifies this
      ensures offset == |old(points)|
      ensures points == old(points) + seq(n, _ => ORIGIN)
    {
      offset := |points|;
      points := points + seq(n, _ => ORIGIN);
    }

    /** set_point. */
    method SetPoint(v: nat, p: Point)
      requires v < |points|
      modifies this
      ensures points == old(points)[v := p]
    {
      points := points[v := p];
    }

    /**
     * build_points: nbPoints new vertices, vertex offset + p taking point p;
     * the index of the first new vertex is returned.
     */
    method BuildPoints(nbPoints: nat, read: seq<Point>) returns (offset: nat)
      requires nbPoints <= |read|
      modifies this
      ensures offset == |old(points)|
      ensures points == old(points) + read[..nbPoints]
    {
      offset := CreateVertices(nbPoints);
      for p := 0 to nbPoints
        invariant |points| == offset + nbPoints
        invariant points[..offset] == old(points)
        invariant points[offset..] == read[..p] + seq(nbPoints - p, _ => ORIGIN)
      {
        SetPoint(offset + p, read[p]);
        assert points[offset..] == (read[..p] + seq(nbPoints - p, _ => ORIGIN))[p := read[p]];
        assert read[..p + 1] == read[..p] + [read[p]];
      }
      assert points == points[..offset] + points[offset..];
    }

    /** One piece: its points are read, then built after the vertices already there. */
    method ReadPiece(piece: Piece) returns (offset: Result<nat>)
      modifies this
      ensures offset.Ok? <==> PiecePoints(piece).Ok?
      ensures offset.Err? ==> offset.message == PiecePoints(piece).message && points == old(points)
      ensures offset.Ok? ==> offset.value == |old(points)| && points == old(points) + PiecePoints(piece).value
    {
      var read := PiecePoints(piece);
      if read.Err? {
        return Err(read.message);
      }
      var first := BuildPoints(|read.value|, read.value);
      assert read.value[..|read.value|] == read.value;
      return Ok(first);
    }

    /**
     * read_vtk_object, points part: each piece's points are read and built
     * after those of the pieces before it; the vertex offset of piece i is
     * the vertex count before it.
     */
    method ReadPieces(pieces: seq<Piece>) returns (r: Outcome, offsets: seq<nat>)
      modifies this
      ensures r.Pass? <==> AllPoints(pieces).Ok?
      ensures r.Pass? ==> points == old(points) + AllPoints(pieces).value
      ensures r.Pass? ==> |offsets| == |pieces| && OffsetsOf(offsets, pieces, |old(points)|)
    {
      offsets := [];
      ghost var start := points;
      assert pieces[..0] == [];
      for i := 0 to |pieces|
        invariant Progress(pieces, i, start, points, offsets)
      {
        ghost var before := points;
        var offset := ReadPiece(pieces[i]);
        if offset.Err? {
          PrefixFails(pieces, i + 1);
          return Fail(offset.message), offsets;
        }
        ProgressStep(pieces, i, start, before, offsets, points, offset.value);
        offsets := offsets + [offset.value];
      }
      ProgressDone(pieces, start, points, offsets);
      return Pass, offsets;
    }
  }

  /** After the first i pieces: they all read, their points follow the start, one offset each. */
  ghost predicate Progress(pieces: seq<Piece>, i: nat, start: seq<Point>, points: seq<Point>, offsets: seq<nat>)
    requires i <= |pieces|
  {
    && AllPoints(pieces[..i]).Ok?
    && points == start + AllPoints(pieces[..i]).value
    && |offsets| == i && OffsetsOf(offsets, pieces, |start|)
  }

  lemma ProgressStep(pieces: seq<Piece>, i: nat, start: seq<Point>, before: seq<Point>, offsets: seq<nat>,
                     after: seq<Point>, offset: nat)
    requires i < |pieces| && Progress(pieces, i, start, before, offsets)
    requires PiecePoints(pieces[i]).Ok? && offset == |before| && after == before + PiecePoints(pieces[i]).value
    ensures Progress(pieces, i + 1, start, after, offsets + [offset])
  {
    AllPointsStep(pieces, i);
    OffsetsGrow(offsets, pieces, |start|, offset);
  }

  lemma ProgressDone(pieces: seq<Piece>, start: seq<Point>, points: seq<Point>, offsets: seq<nat>)
    requires Progress(pieces, |pieces|, start, points, offsets)
    ensures AllPoints(pieces).Ok? && points == start + AllPoints(pieces).value
    ensures |offsets| == |pieces| && OffsetsOf(offsets, pieces, |start|)
  {
    assert pieces[..|pieces|] == pieces;
  }

  /** Offset i is the base plus the number of points of the pieces before piece i. */
  ghost predicate OffsetsOf(offsets: seq<nat>, pieces: seq<Piece>, base: nat) {
    |offsets| <= |pieces| &&
    forall i | 0 <= i < |offsets| :: AllPoints(pieces[..i]).Ok? && offsets[i] == base + |AllPoints(pieces[..i]).value|
  }

  lemma OffsetsGrow(offsets: seq<nat>, pieces: seq<Piece>, base: nat, offset: nat)
    requires OffsetsOf(offsets, pieces, base) && |offsets| < |pieces|
    requires AllPoints(pieces[..|offsets|]).Ok? && offset == base + |AllPoints(pieces[..|offsets|]).value|
    ensures OffsetsOf(offsets + [offset], pieces, base)
  {
  }

  /** One more piece that reads adds its points after the others. */
  lemma AllPointsStep(pieces: seq<Piece>, i: nat)
    requires i < |pieces| && AllPoints(pieces[..i]).Ok? && PiecePoints(pieces[i]).Ok?
    ensures AllPoints(pieces[..i + 1]) == Ok(AllPoints(pieces[..i]).value + PiecePoints(pieces[i]).value)
  {
    assert pieces[..i + 1][..i] == pieces[..i];
  }

  /** A piece that fails makes every longer run of pieces fail. */
  lemma {:induction false} PrefixFails(pieces: seq<Piece>, k: nat)
    requires 0 < k <= |pieces| && (AllPoints(pieces[..k - 1]).Err? || PiecePoints(pieces[k - 1]).Err?)
    ensures AllPoints(pieces).Err?
    decreases |pieces| - k
  {
    assert pieces[..k][..k - 1] == pieces[..k - 1];
    if k == |pieces| {
      assert pieces[..k] == pieces;
    } else {
      PrefixFails(pieces, k + 1);
    }
  }

  /** is_vtk_object_loadable: one percentage per piece, in piece order. */
  method LoadablePercentages<P>(pieces: seq<P>, loadable: P -> real) returns (percentages: seq<real>)
    ensures |percentages| == |pieces|
    ensures forall i | 0 <= i < |pieces| :: percentages[i] == loadable(pieces[i])
  {
    percentages := [];
    for i := 0 to |pieces|
      invariant |percentages| == i
      invariant forall q | 0 <= q < i :: percentages[q] == loadable(pieces[q])
    {
      percentages := percentages + [loadable(pieces[i])];
    }
  }
}
