/**
 * The SMESH reader for triangulated surfaces
 * (src/geode/io/mesh/smesh_triangulated_input.cpp). It reads the same
 * layout as the generic SMESH reader but takes shortcuts: the index column
 * of a point row is not read, each coordinate token must convert to a
 * number, each element row must start with "3", and a vertex token k names
 * vertex k − 1 directly, computed in the 32-bit index type.
 */
module SmeshTriangulated {
  import opened Wrappers
  import opened Text
  import opened Streams
  import Smesh

  // ---------------------------------------------------------------------
  // Messages of the exceptions the reader throws
  // ---------------------------------------------------------------------

  const COORDINATE_ERROR: string := "[SMESHTriangulatedInput::read_points] Cannot read coordinate"
  const POINTS_COUNT_ERROR: string := "[SMESHTriangulatedInput::read_points] Cannot read number of points"
  const MISSING_COORDINATE: string := "[SMESHTriangulatedInput::read_points] Missing coordinate"
  const TRIANGLES_COUNT_ERROR: string := "[SMESHTriangulatedInput::read_triangles] Cannot read number of triangles"
  const VERTEX_ERROR: string := "[SMESHTriangulatedInput::read_triangles] Cannot read triangle vertex index"
  const MISSING_VERTEX: string := "[SMESHTriangulatedInput::read_triangles] Missing triangle vertex index"
  const NOT_A_TRIANGLE: string := "[SMESHTriangulatedInput::read_triangles] Only triangles can be imported"

  // ---------------------------------------------------------------------
  // Coordinates
  // ---------------------------------------------------------------------

  /**
   * Where a scan of a decimal number stands: before anything, after a
   * sign, in the integer digits, at a point with or without digits before
   * it, in the fraction digits, at the exponent mark, after its sign, in
   * its digits.
   */
  datatype Scan = Start | Signed | Whole | BarePoint | Point | Fraction | Mark | MarkSigned | Exponent

  predicate IsSign(c: char) { c == '+' || c == '-' }
  predicate IsMark(c: char) { c == 'e' || c == 'E' }

  function Next(q: Scan, c: char): Option<Scan>
  {
    match q
    case Start | Signed =>
      if IsDigit(c) then Some(Whole) else if c == '.' then Some(BarePoint)
      else if q == Start && IsSign(c) then Some(Signed) else None
    case Whole =>
      if IsDigit(c) then Some(Whole) else if c == '.' then Some(Point)
      else if IsMark(c) then Some(Mark) else None
    case BarePoint => if IsDigit(c) then Some(Fraction) else None
    case Point | Fraction =>
      if IsDigit(c) then Some(Fraction) else if IsMark(c) then Some(Mark) else None
    case Mark | MarkSigned =>
      if IsDigit(c) then Some(Exponent) else if q == Mark && IsSign(c) then Some(MarkSigned) else None
    case Exponent => if IsDigit(c) then Some(Exponent) else None
  }

  /** A number may end once it holds a digit and its exponent, if any, holds one too. */
  predicate Final(q: Scan) { q == Whole || q == Point || q == Fraction || q == Exponent }

  function Accepts(s: string, q: Scan): bool
  {
    if s == [] then Final(q)
    else
      match Next(q, s[0])
      case None => false
      case Some(q') => Accepts(s[1..], q')
  }

  /**
   * absl::SimpleAtod, restricted to plain decimal numbers: an optional
   * sign, digits with at most one decimal point and at least one digit,
   * then optionally 'e' or 'E', an optional sign and digits.
   */
  predicate IsDecimal(s: string)
  {
    Accepts(s, Start)
  }

  lemma {:induction false} DigitsAccepted(s: string, q: Scan)
    requires AllDigits(s) && (q == Whole || q == Fraction || q == Exponent)
    ensures Accepts(s, q)
  {
    if s != [] {
      assert IsDigit(s[0]);
      DigitsAccepted(s[1..], q);
    }
  }

  /** Whole numbers as NatToString writes them convert, with or without a sign. */
  lemma NatIsDecimal(n: nat)
    ensures IsDecimal(NatToString(n)) && IsDecimal("-" + NatToString(n))
  {
    var s := NatToString(n);
    assert IsDigit(s[0]);
    DigitsAccepted(s[1..], Whole);
    assert ("-" + s)[1..] == s;
  }

  /** Fixed-point and scientific spellings convert. */
  lemma DecimalSpellings()
    ensures IsDecimal("-0.25") && IsDecimal("2.5e-3")
  {
    var s := "-0.25";
    assert s[1..][1..][1..] == "25" && Accepts("25", Fraction) by { DigitsAccepted("25", Fraction); }
    var t := "2.5e-3";
    assert t[1..][1..][1..][1..] == "-3" && Accepts("-3", Mark) by { assert "-3"[1..] == "3"; }
  }

  /** A second point, a bare exponent, a lone sign, an empty exponent or an empty token do not. */
  lemma NotDecimalSpellings()
    ensures !IsDecimal("1.2.3") && !IsDecimal("e5") && !IsDecimal("-") && !IsDecimal("1e") && !IsDecimal("")
  {
  }

  /**
   * The coordinate loop of read_points over a row's coordinate tokens: each
   * must convert, left to right, the first that does not stopping the read.
   */
  function Coordinates(tokens: seq<string>): (r: Result<seq<string>>)
    ensures r.Ok? ==> r.value == tokens
  {
    if tokens == [] then Ok([])
    else
      match Coordinates(tokens[..|tokens| - 1])
      case Err(e) => Err(e)
      case Ok(cs) =>
        if IsDecimal(tokens[|tokens| - 1]) then Ok(cs + [tokens[|tokens| - 1]])
        else Err(COORDINATE_ERROR)
  }

  /** One point row: its three coordinate tokens after the index column, which is not read. */
  function PointLine(row: seq<string>): (r: Result<seq<string>>)
    ensures r.Ok? ==> |r.value| == 3
  {
    if |row| < 4 then Err(MISSING_COORDINATE)
    else Coordinates(row[1..4])
  }

  lemma {:induction false} CoordinatesMeaning(tokens: seq<string>)
    ensures Coordinates(tokens).Ok? <==> forall d | 0 <= d < |tokens| :: IsDecimal(tokens[d])
  {
    if tokens != [] {
      var init := tokens[..|tokens| - 1];
      CoordinatesMeaning(init);
      assert Coordinates(tokens).Ok? <==> Coordinates(init).Ok? && IsDecimal(tokens[|tokens| - 1]);
      if forall d | 0 <= d < |tokens| :: IsDecimal(tokens[d]) {
        assert forall d | 0 <= d < |init| :: IsDecimal(init[d]) by {
          forall d | 0 <= d < |init| ensures IsDecimal(init[d]) { assert init[d] == tokens[d]; }
        }
      } else {
        var d :| 0 <= d < |tokens| && !IsDecimal(tokens[d]);
        if d < |init| { assert init[d] == tokens[d]; }
      }
    }
  }

  /** The first token that fails decides the error, whatever follows it. */
  lemma {:induction false} CoordinatesStop(tokens: seq<string>, d: nat)
    requires d < |tokens| && Coordinates(tokens[..d]).Ok? && Coordinates(tokens[..d + 1]).Err?
    ensures Coordinates(tokens) == Coordinates(tokens[..d + 1])
  {
    if |tokens| > d + 1 {
      var init := tokens[..|tokens| - 1];
      assert init[..d] == tokens[..d];
      assert init[..d + 1] == tokens[..d + 1];
      CoordinatesStop(init, d);
    } else {
      assert tokens[..d + 1] == tokens;
    }
  }

  /**
   * A point row reads exactly when it has three tokens after the index
   * column and each converts; its point is those three tokens, whatever
   * the index column holds.
   */
  lemma PointLineMeaning(row: seq<string>)
    ensures PointLine(row).Ok? <==> |row| >= 4 && IsDecimal(row[1]) && IsDecimal(row[2]) && IsDecimal(row[3])
    ensures PointLine(row).Ok? ==> PointLine(row).value == row[1..4]
  {
    if |row| >= 4 {
      CoordinatesMeaning(row[1..4]);
      assert row[1..4][0] == row[1] && row[1..4][1] == row[2] && row[1..4][2] == row[3];
    }
  }

  function PointRows(rows: seq<seq<string>>, first: nat, n: nat): (r: Result<seq<seq<string>>>)
    ensures r.Ok? ==> |r.value| == n
  {
    if n == 0 then Ok([])
    else
      match PointRows(rows, first, n - 1)
      case Err(e) => Err(e)
      case Ok(points) =>
        match PointLine(Smesh.RowAt(rows, first + n - 1))
        case Err(e) => Err(e)
        case Ok(point) => Ok(points + [point])
  }

  function PointsSection(rows: seq<seq<string>>, header: nat): (r: Result<seq<seq<string>>>)
    ensures r.Ok? ==> (Smesh.CountOf(Smesh.RowAt(rows, header)).Some?
                       && Smesh.CountOf(Smesh.RowAt(rows, header)).value == |r.value|)
  {
    match Smesh.CountOf(Smesh.RowAt(rows, header))
    case None => Err(POINTS_COUNT_ERROR)
    case Some(n) => PointRows(rows, header + 1, n)
  }

  // ---------------------------------------------------------------------
  // Triangles
  // ---------------------------------------------------------------------

  /** index − 1 in index_t: file index 0 wraps around to NO_ID. */
  function VertexOf(index: Index): (v: Index)
    ensures (v + 1) % INDEX_LIMIT == index
  {
    if index == 0 then NO_ID else index - 1
  }

  /**
   * The vertex loop of read_triangles over a row's vertex tokens: each is
   * converted (a failure throws) and turned into a vertex, left to right.
   */
  function Vertices(tokens: seq<string>): (r: Result<seq<Index>>)
    ensures r.Ok? ==> |r.value| == |tokens|
  {
    if tokens == [] then Ok([])
    else
      match Vertices(tokens[..|tokens| - 1])
      case Err(e) => Err(e)
      case Ok(vs) =>
        match ParseIndex(tokens[|tokens| - 1])
        case None => Err(VERTEX_ERROR)
        case Some(index) => Ok(vs + [VertexOf(index)])
  }

  /** The tag of a triangle row: the token "3", compared character by character. */
  predicate IsTriangleTag(tag: string)
  {
    |tag| == 1 && tag[0] == '3'
  }

  lemma TriangleTagIsThree(tag: string)
    ensures IsTriangleTag(tag) <==> tag == "3"
  {
    if IsTriangleTag(tag) {
      assert tag == [tag[0]];
    }
  }

  /** One element row: the tag must be "3", then three vertex tokens. */
  function TriangleLine(row: seq<string>): (r: Result<seq<Index>>)
    ensures r.Ok? ==> |r.value| == 3
  {
    if !IsTriangleTag(Smesh.Front(row)) then Err(NOT_A_TRIANGLE)
    else if |row| < 4 then Err(MISSING_VERTEX)
    else Vertices(row[1..4])
  }

  lemma {:induction false} VerticesMeaning(tokens: seq<string>)
    ensures Vertices(tokens).Ok? <==> forall d | 0 <= d < |tokens| :: ParseIndex(tokens[d]).Some?
    ensures Vertices(tokens).Ok? ==>
      forall d | 0 <= d < |tokens| :: Vertices(tokens).value[d] == VertexOf(ParseIndex(tokens[d]).value)
  {
    if tokens != [] {
      var init := tokens[..|tokens| - 1];
      VerticesMeaning(init);
      assert forall d | 0 <= d < |init| :: init[d] == tokens[d];
    }
  }

  /** The first token that fails decides the error, whatever follows it. */
  lemma {:induction false} VerticesStop(tokens: seq<string>, d: nat)
    requires d < |tokens| && Vertices(tokens[..d]).Ok? && Vertices(tokens[..d + 1]).Err?
    ensures Vertices(tokens) == Vertices(tokens[..d + 1])
  {
    if |tokens| > d + 1 {
      var init := tokens[..|tokens| - 1];
      assert init[..d] == tokens[..d] && init[..d + 1] == tokens[..d + 1];
      VerticesStop(init, d);
    } else {
      assert tokens[..d + 1] == tokens;
    }
  }

  /**
   * An element row reads exactly when its tag is "3" and its next three
   * tokens convert, and vertex d is token d + 1 less one.
   */
  lemma TriangleLineMeaning(row: seq<string>)
    ensures TriangleLine(row).Ok? <==>
      && IsTriangleTag(Smesh.Front(row)) && |row| >= 4
      && ParseIndex(row[1]).Some? && ParseIndex(row[2]).Some? && ParseIndex(row[3]).Some?
    ensures TriangleLine(row).Ok? ==>
      forall d | 0 <= d < 3 :: TriangleLine(row).value[d] == VertexOf(ParseIndex(row[d + 1]).value)
  {
    if |row| >= 4 {
      var tokens := row[1..4];
      VerticesMeaning(tokens);
      assert tokens[0] == row[1] && tokens[1] == row[2] && tokens[2] == row[3];
    }
  }

  /** A vertex token 0 gives vertex NO_ID: the reader counts file indices from 1. */
  lemma ZeroIndexIsNoVertex()
    ensures TriangleLine(["3", "0", "1", "2"]).Ok? && TriangleLine(["3", "0", "1", "2"]).value == [NO_ID, 0, 1]
  {
    var row := ["3", "0", "1", "2"];
    assert ParseIndex("0") == Some(0) && ParseIndex("1") == Some(1) && ParseIndex("2") == Some(2) by {
      assert "0"[..0] == "1"[..0] == "2"[..0] == [];
    }
    var tokens := row[1..4];
    assert tokens == ["0", "1", "2"];
    assert tokens[..1] == ["0"] && tokens[..2] == ["0", "1"] && tokens[..2][..1] == ["0"] && ["0"][..0] == [];
    assert Vertices(["0"]).Ok? && Vertices(["0"]).value == [NO_ID];
    assert Vertices(["0", "1"]).Ok? && Vertices(["0", "1"]).value == [NO_ID, 0];
  }

  function TriangleRows(rows: seq<seq<string>>, first: nat, n: nat): (r: Result<seq<seq<Index>>>)
    ensures r.Ok? ==> |r.value| == n
  {
    if n == 0 then Ok([])
    else
      match TriangleRows(rows, first, n - 1)
      case Err(e) => Err(e)
      case Ok(triangles) =>
        match TriangleLine(Smesh.RowAt(rows, first + n - 1))
        case Err(e) => Err(e)
        case Ok(triangle) => Ok(triangles + [triangle])
  }

  function TrianglesSection(rows: seq<seq<string>>, header: nat): (r: Result<seq<seq<Index>>>)
    ensures r.Ok? ==> (Smesh.CountOf(Smesh.RowAt(rows, header)).Some?
                       && Smesh.CountOf(Smesh.RowAt(rows, header)).value == |r.value|)
  {
    match Smesh.CountOf(Smesh.RowAt(rows, header))
    case None => Err(TRIANGLES_COUNT_ERROR)
    case Some(n) => TriangleRows(rows, header + 1, n)
  }

  /** What the reader builds: the points, and the vertices of each create_triangle call. */
  datatype Surface = Surface(points: seq<seq<string>>, triangles: seq<seq<Index>>)

  /** read_file: the points section, then the triangles section right after it. */
  function ReadTriangulated(rows: seq<seq<string>>): (r: Result<Surface>)
  {
    match PointsSection(rows, 0)
    case Err(e) => Err(e)
    case Ok(points) =>
      match TrianglesSection(rows, 1 + |points|)
      case Err(e) => Err(e)
      case Ok(triangles) => Ok(Surface(points, triangles))
  }

  /** A triangle read from a row: the row starts with "3", and vertex d is one less than token d + 1, modulo 2^32. */
  ghost predicate TriangleOfRow(row: seq<string>, triangle: seq<Index>)
  {
    && IsTriangleTag(Smesh.Front(row)) && |row| >= 4 && |triangle| == 3
    && forall d | 0 <= d < 3 :: ParseIndex(row[d + 1]).Some? && (triangle[d] + 1) % INDEX_LIMIT == ParseIndex(row[d + 1]).value
  }

  lemma TriangleOfLine(row: seq<string>)
    requires TriangleLine(row).Ok?
    ensures TriangleOfRow(row, TriangleLine(row).value)
  {
    TriangleLineMeaning(row);
  }

  /** Each triangle of a section is read from its own row, the rows following each other from `first` on. */
  ghost predicate TrianglesOfRows(rows: seq<seq<string>>, first: nat, triangles: seq<seq<Index>>)
  {
    forall e | 0 <= e < |triangles| :: TriangleOfRow(Smesh.RowAt(rows, first + e), triangles[e])
  }

  lemma {:induction false} TriangleRowsRead(rows: seq<seq<string>>, first: nat, n: nat)
    requires TriangleRows(rows, first, n).Ok?
    ensures TrianglesOfRows(rows, first, TriangleRows(rows, first, n).value)
  {
    if n > 0 {
      TriangleRowsRead(rows, first, n - 1);
      var row := Smesh.RowAt(rows, first + n - 1);
      TriangleOfLine(row);
      var init := TriangleRows(rows, first, n - 1).value;
      var all := init + [TriangleLine(row).value];
      assert TriangleRows(rows, first, n).value == all;
      forall e | 0 <= e < n
        ensures TriangleOfRow(Smesh.RowAt(rows, first + e), all[e])
      {
        if e < n - 1 {
          assert all[e] == init[e];
        }
      }
    }
  }

  /**
   * A read that succeeds has as many points and triangles as its two count
   * rows say, each point is three coordinates, and each triangle is read
   * from its row as TriangleOfRow says.
   */
  lemma ReadTriangulatedValid(rows: seq<seq<string>>)
    requires ReadTriangulated(rows).Ok?
    ensures var s := ReadTriangulated(rows).value;
      && Smesh.CountOf(Smesh.RowAt(rows, 0)).Some? && Smesh.CountOf(Smesh.RowAt(rows, 0)).value == |s.points|
      && Smesh.CountOf(Smesh.RowAt(rows, 1 + |s.points|)).Some?
      && Smesh.CountOf(Smesh.RowAt(rows, 1 + |s.points|)).value == |s.triangles|
      && PointsOfRows(rows, 1, s.points)
      && TrianglesOfRows(rows, 2 + |s.points|, s.triangles)
  {
    var s := ReadTriangulated(rows).value;
    ReadTriangulatedParts(rows);
    PointRowsRead(rows, 1, |s.points|);
    TriangleRowsRead(rows, 2 + |s.points|, |s.triangles|);
  }

  /** A read that succeeds is its two sections, one after the other. */
  lemma ReadTriangulatedParts(rows: seq<seq<string>>)
    requires ReadTriangulated(rows).Ok?
    ensures var s := ReadTriangulated(rows).value;
      && Smesh.CountOf(Smesh.RowAt(rows, 0)).Some? && Smesh.CountOf(Smesh.RowAt(rows, 0)).value == |s.points|
      && PointRows(rows, 1, |s.points|) == Ok(s.points)
      && Smesh.CountOf(Smesh.RowAt(rows, 1 + |s.points|)).Some?
      && Smesh.CountOf(Smesh.RowAt(rows, 1 + |s.points|)).value == |s.triangles|
      && TriangleRows(rows, 2 + |s.points|, |s.triangles|) == Ok(s.triangles)
  {
  }

  /** A point read from a row: tokens 1 to 3 of the row, each a number. */
  ghost predicate PointOfRow(row: seq<string>, point: seq<string>)
  {
    |row| >= 4 && point == row[1..4] && IsDecimal(point[0]) && IsDecimal(point[1]) && IsDecimal(point[2])
  }

  /** Each point of a section is read from its own row, the rows following each other from `first` on. */
  ghost predicate PointsOfRows(rows: seq<seq<string>>, first: nat, points: seq<seq<string>>)
  {
    forall p | 0 <= p < |points| :: PointOfRow(Smesh.RowAt(rows, first + p), points[p])
  }

  lemma {:induction false} PointRowsRead(rows: seq<seq<string>>, first: nat, n: nat)
    requires PointRows(rows, first, n).Ok?
    ensures PointsOfRows(rows, first, PointRows(rows, first, n).value)
  {
    if n > 0 {
      PointRowsRead(rows, first, n - 1);
      var row := Smesh.RowAt(rows, first + n - 1);
      PointLineMeaning(row);
      var init, point := PointRows(rows, first, n - 1).value, PointLine(row).value;
      assert PointRows(rows, first, n).value == init + [point];
      forall p | 0 <= p < n
        ensures PointOfRow(Smesh.RowAt(rows, first + p), (init + [point])[p])
      {
        if p < n - 1 {
          assert (init + [point])[p] == init[p];
        }
      }
    }
  }

  // ---------------------------------------------------------------------
  // The reader object
  // ---------------------------------------------------------------------

  lemma PointStep(rows: seq<seq<string>>, first: nat, p: nat, points: seq<seq<string>>, point: seq<string>)
    requires PointRows(rows, first, p) == Ok(points) && PointLine(Smesh.RowAt(rows, first + p)) == Ok(point)
    ensures PointRows(rows, first, p + 1) == Ok(points + [point])
  {
  }

  lemma {:induction false} PointRowsStop(rows: seq<seq<string>>, first: nat, p: nat, n: nat)
    requires p < n && PointRows(rows, first, p).Ok? && PointLine(Smesh.RowAt(rows, first + p)).Err?
    ensures PointRows(rows, first, n).Err?
  {
    if n > p + 1 {
      PointRowsStop(rows, first, p, n - 1);
    }
  }

  lemma TriangleStep(rows: seq<seq<string>>, first: nat, e: nat, triangles: seq<seq<Index>>, triangle: seq<Index>)
    requires TriangleRows(rows, first, e) == Ok(triangles) && TriangleLine(Smesh.RowAt(rows, first + e)) == Ok(triangle)
    ensures TriangleRows(rows, first, e + 1) == Ok(triangles + [triangle])
  {
  }

  lemma {:induction false} TriangleRowsStop(rows: seq<seq<string>>, first: nat, e: nat, n: nat)
    requires e < n && TriangleRows(rows, first, e).Ok? && TriangleLine(Smesh.RowAt(rows, first + e)).Err?
    ensures TriangleRows(rows, first, n).Err?
  {
    if n > e + 1 {
      TriangleRowsStop(rows, first, e, n - 1);
    }
  }

  lemma PointsSectionIs(rows: seq<seq<string>>, header: nat, n: Index)
    requires Smesh.CountOf(Smesh.RowAt(rows, header)) == Some(n)
    ensures PointsSection(rows, header) == PointRows(rows, header + 1, n)
  {
  }

  lemma TrianglesSectionIs(rows: seq<seq<string>>, header: nat, n: Index)
    requires Smesh.CountOf(Smesh.RowAt(rows, header)) == Some(n)
    ensures TrianglesSection(rows, header) == TriangleRows(rows, header + 1, n)
  {
  }

  /** SMESHTriangulatedInputImpl over the lines of a file. */
  class TriangulatedReader {
    /** The tokens of each line of the file. */
    const rows: seq<seq<string>>
    /** The number of lines read so far. */
    var cursor: nat
    /** The points the builder holds. */
    var points: seq<seq<string>>
    /** The vertices passed to create_triangle, call after call. */
    var triangles: seq<seq<Index>>

    constructor (lines: seq<string>)
      ensures rows == Smesh.Rows(lines) && cursor == 0 && points == [] && triangles == []
    {
      rows := Smesh.Rows(lines);
      cursor, points, triangles := 0, [], [];
    }

    /** tokens(): reads the next line. */
    method NextTokens() returns (tokens: seq<string>)
      modifies this
      ensures tokens == Smesh.RowAt(rows, old(cursor)) && cursor == old(cursor) + 1
      ensures points == old(points) && triangles == old(triangles)
    {
      tokens := Smesh.RowAt(rows, cursor);
      cursor := cursor + 1;
    }

    /** The coordinate loop of read_points over one row. */
    static method ParseCoordinates(values: seq<string>) returns (r: Result<seq<string>>)
      ensures r == PointLine(values)
    {
      if |values| < 4 {
        return Err(MISSING_COORDINATE);
      }
      ghost var tokens := values[1..4];
      var coordinates: seq<string> := [];
      for d := 0 to 3
        invariant Coordinates(tokens[..d]) == Ok(coordinates)
      {
        assert tokens[..d + 1][..d] == tokens[..d] && tokens[d] == values[d + 1];
        if !IsDecimal(values[d + 1]) {
          CoordinatesStop(tokens, d);
          return Err(COORDINATE_ERROR);
        }
        coordinates := coordinates + [values[d + 1]];
      }
      assert tokens[..3] == tokens;
      return Ok(coordinates);
    }

    /** read_points: create_vertices(nb_points), then set_point per point row. */
    method ReadPoints() returns (r: Outcome)
      requires points == []
      modifies this
      ensures r.Pass? <==> PointsSection(rows, old(cursor)).Ok?
      ensures r.Pass? ==>
        points == PointsSection(rows, old(cursor)).value && cursor == old(cursor) + 1 + |points|
      ensures triangles == old(triangles)
    {
      var header := NextTokens();
      var count := ParseIndex(Smesh.Front(header));
      if count.None? {
        return Fail(POINTS_COUNT_ERROR);
      }
      PointsSectionIs(rows, old(cursor), count.value);
      r := ReadPointRows(count.value);
    }

    /** create_vertices(n) and the point loop over the next n rows. */
    method ReadPointRows(n: nat) returns (r: Outcome)
      modifies this
      ensures r.Pass? <==> PointRows(rows, old(cursor), n).Ok?
      ensures r.Pass? ==> points == PointRows(rows, old(cursor), n).value && cursor == old(cursor) + n
      ensures triangles == old(triangles)
    {
      var first := cursor;
      points := Smesh.Origins(n);
      for p := 0 to n
        invariant cursor == first + p && |points| == n
        invariant PointRows(rows, first, p) == Ok(points[..p])
        invariant triangles == old(triangles)
      {
        var failed := ReadPointRow(first, p, n);
        if failed.Some? {
          return Fail(failed.value);
        }
      }
      assert points[..n] == points;
      return Pass;
    }

    /** One row of the point loop: set_point with its coordinates, or the error that stops the loop. */
    method ReadPointRow(ghost first: nat, p: nat, ghost n: nat) returns (failed: Option<string>)
      requires p < n && cursor == first + p && |points| == n
      requires PointRows(rows, first, p) == Ok(points[..p])
      modifies this
      ensures cursor == first + p + 1 && |points| == n && triangles == old(triangles)
      ensures failed.None? ==> PointRows(rows, first, p + 1) == Ok(points[..p + 1])
      ensures failed.Some? ==> PointRows(rows, first, n).Err?
    {
      var values := NextTokens();
      var point := ParseCoordinates(values);
      if point.Err? {
        PointRowsStop(rows, first, p, n);
        return Some(point.message);
      }
      PointStep(rows, first, p, points[..p], point.value);
      points := points[p := point.value];
      assert points[..p + 1] == old(points)[..p] + [point.value];
      return None;
    }

    /** The vertex loop of read_triangles over one row, after its "3" check. */
    static method ParseTriangle(values: seq<string>) returns (r: Result<seq<Index>>)
      ensures r == TriangleLine(values)
    {
      if !IsTriangleTag(Smesh.Front(values)) {
        return Err(NOT_A_TRIANGLE);
      }
      if |values| < 4 {
        return Err(MISSING_VERTEX);
      }
      ghost var tokens := values[1..4];
      var vertices: seq<Index> := [];
      for d := 0 to 3
        invariant Vertices(tokens[..d]) == Ok(vertices)
      {
        assert tokens[..d + 1][..d] == tokens[..d] && tokens[d] == values[d + 1];
        var index := ParseIndex(values[d + 1]);
        if index.None? {
          VerticesStop(tokens, d);
          return Err(VERTEX_ERROR);
        }
        vertices := vertices + [VertexOf(index.value)];
      }
      assert tokens[..3] == tokens;
      return Ok(vertices);
    }

    /** read_triangles: one create_triangle call per element row. */
    method ReadTriangles() returns (r: Outcome)
      requires triangles == []
      modifies this
      ensures r.Pass? <==> TrianglesSection(rows, old(cursor)).Ok?
      ensures r.Pass? ==>
        triangles == TrianglesSection(rows, old(cursor)).value && cursor == old(cursor) + 1 + |triangles|
      ensures points == old(points)
    {
      var header := NextTokens();
      var count := ParseIndex(Smesh.Front(header));
      if count.None? {
        return Fail(TRIANGLES_COUNT_ERROR);
      }
      TrianglesSectionIs(rows, old(cursor), count.value);
      r := ReadTriangleRows(count.value);
    }

    method ReadTriangleRows(n: nat) returns (r: Outcome)
      requires triangles == []
      modifies this
      ensures r.Pass? <==> TriangleRows(rows, old(cursor), n).Ok?
      ensures r.Pass? ==> triangles == TriangleRows(rows, old(cursor), n).value && cursor == old(cursor) + n
      ensures points == old(points)
    {
      var first := cursor;
      for e := 0 to n
        invariant cursor == first + e
        invariant TriangleRows(rows, first, e) == Ok(triangles)
        invariant points == old(points)
      {
        var failed := ReadTriangleRow(first, e, n);
        if failed.Some? {
          return Fail(failed.value);
        }
      }
      return Pass;
    }

    /** One row of the triangle loop: create_triangle with its vertices, or the error that stops the loop. */
    method ReadTriangleRow(ghost first: nat, ghost e: nat, ghost n: nat) returns (failed: Option<string>)
      requires e < n && cursor == first + e
      requires TriangleRows(rows, first, e) == Ok(triangles)
      modifies this
      ensures cursor == first + e + 1 && points == old(points)
      ensures failed.None? ==> TriangleRows(rows, first, e + 1) == Ok(triangles)
      ensures failed.Some? ==> TriangleRows(rows, first, n).Err?
    {
      var values := NextTokens();
      var triangle := ParseTriangle(values);
      if triangle.Err? {
        TriangleRowsStop(rows, first, e, n);
        return Some(triangle.message);
      }
      TriangleStep(rows, first, e, triangles, triangle.value);
      triangles := triangles + [triangle.value];
      return None;
    }

    /** read_file: the points, then the triangles. */
    method ReadFile() returns (r: Outcome)
      requires cursor == 0 && points == [] && triangles == []
      modifies this
      ensures r.Pass? <==> ReadTriangulated(rows).Ok?
      ensures r.Pass? ==> points == ReadTriangulated(rows).value.points
      ensures r.Pass? ==> triangles == ReadTriangulated(rows).value.triangles
    {
      r := ReadPoints();
      if r.Fail? {
        return;
      }
      r := ReadTriangles();
    }
  }

  // ---------------------------------------------------------------------
  // Agreement with the generic SMESH reader
  // ---------------------------------------------------------------------

  /** The n point rows from row `first` on carry three coordinate tokens that convert. */
  ghost predicate DecimalCoordinates(rows: seq<seq<string>>, first: nat, n: nat)
  {
    forall i | first <= i < first + n ::
      var row := Smesh.RowAt(rows, i);
      |row| >= 4 && IsDecimal(row[1]) && IsDecimal(row[2]) && IsDecimal(row[3])
  }

  /** The n element rows from row `first` on are tagged "3". */
  ghost predicate TriangleTags(rows: seq<seq<string>>, first: nat, n: nat)
  {
    forall i | first <= i < first + n :: IsTriangleTag(Smesh.Front(Smesh.RowAt(rows, i)))
  }

  lemma {:induction false} PointsAgree(rows: seq<seq<string>>, first: nat, n: nat)
    requires Smesh.PointRows(rows, first, n).Ok? && DecimalCoordinates(rows, first, n)
    ensures PointRows(rows, first, n).Ok?
    ensures PointRows(rows, first, n).value == Smesh.Coordinates(Smesh.PointRows(rows, first, n).value)
  {
    if n > 0 {
      assert Smesh.PointRows(rows, first, n - 1).Ok?;
      assert DecimalCoordinates(rows, first, n - 1);
      PointsAgree(rows, first, n - 1);
      var row := Smesh.RowAt(rows, first + n - 1);
      PointLineMeaning(row);
      var init := Smesh.PointRows(rows, first, n - 1).value;
      var point := Smesh.PointLine(row).value;
      var generic := init + [point];
      assert Smesh.PointRows(rows, first, n) == Ok(generic);
      assert PointLine(row) == Ok(row[1..4]);
      assert PointRows(rows, first, n) == Ok(PointRows(rows, first, n - 1).value + [row[1..4]]);
      assert generic[..n - 1] == init;
      assert Smesh.Coordinates(generic) == Smesh.Coordinates(init) + [row[1..4]];
    }
  }

  lemma {:induction false} TrianglesAgree(rows: seq<seq<string>>, first: nat, n: nat, vertices: map<Index, nat>)
    requires Smesh.ElementRows(rows, first, n, 3, vertices).Ok? && TriangleTags(rows, first, n)
    requires forall id | id in vertices :: id >= 1 && vertices[id] == id - 1
    ensures TriangleRows(rows, first, n).Ok?
    ensures TriangleRows(rows, first, n).value == Smesh.ElementRows(rows, first, n, 3, vertices).value
  {
    if n > 0 {
      TrianglesAgree(rows, first, n - 1, vertices);
      var row := Smesh.RowAt(rows, first + n - 1);
      TriangleLineAgrees(row, vertices);
    }
  }

  /** A row the generic reader resolves through a map from k to k − 1 reads as the same triangle here. */
  lemma TriangleLineAgrees(row: seq<string>, vertices: map<Index, nat>)
    requires Smesh.ElementLine(row, 3, vertices).Ok? && IsTriangleTag(Smesh.Front(row))
    requires forall id | id in vertices :: id >= 1 && vertices[id] == id - 1
    ensures TriangleLine(row).Ok? && TriangleLine(row).value == Smesh.ElementLine(row, 3, vertices).value
  {
    var tokens := row[1..4];
    Smesh.ResolveMeaning(tokens, vertices);
    assert tokens[0] == row[1] && tokens[1] == row[2] && tokens[2] == row[3];
    TriangleLineMeaning(row);
    var generic := Smesh.ElementLine(row, 3, vertices).value;
    forall d | 0 <= d < 3
      ensures TriangleLine(row).value[d] == generic[d]
    {
      var index := ParseIndex(tokens[d]).value;
      assert generic[d] == vertices[index] == index - 1;
    }
  }

  /**
   * On the files both readers are meant for (point rows numbered 1 to n in
   * order, coordinates that convert, every element a triangle) the
   * triangulated reader builds what the generic reader builds for elements
   * of three vertices.
   */
  lemma AgreesWithGenericReader(rows: seq<seq<string>>)
    requires Smesh.ReadSmesh(rows, 3).Ok?
    requires var points := Smesh.PointsSection(rows, 0).value;
      && (forall p | 0 <= p < |points| :: points[p].id == p + 1)
      && DecimalCoordinates(rows, 1, |points|)
      && TriangleTags(rows, 2 + |points|, |Smesh.ReadSmesh(rows, 3).value.elements|)
    ensures ReadTriangulated(rows).Ok?
    ensures ReadTriangulated(rows).value.points == Smesh.ReadSmesh(rows, 3).value.points
    ensures ReadTriangulated(rows).value.triangles == Smesh.ReadSmesh(rows, 3).value.elements
  {
    var points := Smesh.PointsSection(rows, 0).value;
    var ids := Smesh.Ids(points);
    PointsSectionAgrees(rows);
    Smesh.IdsAt(points);
    Smesh.ConsecutiveIds(ids);
    TrianglesSectionAgrees(rows, 1 + |points|, Smesh.IndexMap(ids));
  }

  /** The points section reads as the generic reader's points when every coordinate converts. */
  lemma PointsSectionAgrees(rows: seq<seq<string>>)
    requires Smesh.PointsSection(rows, 0).Ok?
    requires DecimalCoordinates(rows, 1, |Smesh.PointsSection(rows, 0).value|)
    ensures PointsSection(rows, 0) == Ok(Smesh.Coordinates(Smesh.PointsSection(rows, 0).value))
  {
    var points := Smesh.PointsSection(rows, 0).value;
    assert Smesh.PointRows(rows, 1, |points|) == Ok(points);
    PointsAgree(rows, 1, |points|);
  }

  /** A section of triangle rows reads as the generic reader's elements of three vertices through a map from k to k − 1. */
  lemma TrianglesSectionAgrees(rows: seq<seq<string>>, header: nat, vertices: map<Index, nat>)
    requires Smesh.ElementsSection(rows, header, 3, vertices).Ok?
    requires TriangleTags(rows, header + 1, |Smesh.ElementsSection(rows, header, 3, vertices).value|)
    requires forall id | id in vertices :: id >= 1 && vertices[id] == id - 1
    ensures TrianglesSection(rows, header) == Smesh.ElementsSection(rows, header, 3, vertices)
  {
    var n := Smesh.CountOf(Smesh.RowAt(rows, header)).value;
    TrianglesAgree(rows, header + 1, n, vertices);
  }
}
