/**
 * The Triangle writer (src/geode/io/mesh/triangle_output.cpp): a 2D
 * triangulated surface becomes three text files sharing one base name,
 * in the formats of Shewchuk's Triangle: the .node file (vertices), the
 * .ele file (triangles) and the .neigh file (the triangle across each
 * edge, -1 on the border). Every record starts with its 0-based index.
 * Each file is modelled as its lines, without their end-of-line.
 */
module TriangleOutput {
  import opened Wrappers
  import opened Text

  /** A vertex position, each coordinate as the text Point2D::string gives it. */
  datatype Point2D = Point2D(x: string, y: string)

  /** A triangle: its three vertices, then the triangle across each of its three edges, if any. */
  datatype Triangle = Triangle(vertices: seq<nat>, adjacents: seq<Option<nat>>)

  /** TriangulatedSurface2D as the writer reads it. */
  datatype Surface2D = Surface2D(points: seq<Point2D>, triangles: seq<Triangle>)

  /** Coordinates are single tokens, and every triangle has three vertices and three edges. */
  predicate WellFormed(s: Surface2D)
  {
    && (forall v | 0 <= v < |s.points| :: IsWord(s.points[v].x) && IsWord(s.points[v].y))
    && (forall t | 0 <= t < |s.triangles| :: |s.triangles[t].vertices| == 3 && |s.triangles[t].adjacents| == 3)
  }

  /** One output file: its name and its lines. */
  datatype File = File(name: string, lines: seq<string>)

  const NODE_SUFFIX := ".node"
  const ELE_SUFFIX := ".ele"
  const NEIGH_SUFFIX := ".neigh"

  /** After the vertex count: dimension 2, no attribute, no boundary marker. */
  const NODE_HEADER_TAIL := ["2", "0", "0"]
  /** After the triangle count: three vertices per triangle, no attribute. */
  const ELE_HEADER_TAIL := ["3", "0"]
  /** After the triangle count: three neighbours per triangle. */
  const NEIGH_HEADER_TAIL := ["3"]
  /** What write_neigh writes for an edge on the border. */
  const NO_NEIGHBOUR := -1

  // ---------------------------------------------------------------------
  // The three files
  // ---------------------------------------------------------------------

  function NodeHeader(n: nat): string
  {
    JoinWords([NatToString(n)] + NODE_HEADER_TAIL)
  }

  /** Vertex v: its index, then its two coordinates. */
  function NodeLine(v: nat, p: Point2D): string
  {
    JoinWords([NatToString(v), p.x, p.y])
  }

  /** The .node file write_node produces. */
  function NodeFile(s: Surface2D): seq<string>
  {
    [NodeHeader(|s.points|)] + seq(|s.points|, v requires 0 <= v < |s.points| => NodeLine(v, s.points[v]))
  }

  function EleHeader(m: nat): string
  {
    JoinWords([NatToString(m)] + ELE_HEADER_TAIL)
  }

  /** Triangle p: its index, then its vertices. */
  function EleLine(p: nat, t: Triangle): string
  {
    JoinWords([NatToString(p)] + NatStrings(t.vertices))
  }

  /** The .ele file write_ele produces. */
  function EleFile(s: Surface2D): seq<string>
  {
    [EleHeader(|s.triangles|)] + seq(|s.triangles|, p requires 0 <= p < |s.triangles| => EleLine(p, s.triangles[p]))
  }

  function NeighHeader(m: nat): string
  {
    JoinWords([NatToString(m)] + NEIGH_HEADER_TAIL)
  }

  /** The neighbour across an edge, or -1 when the edge is on the border. */
  function AdjacentText(adjacent: Option<nat>): (w: string)
    ensures IsWord(w)
  {
    match adjacent
    case Some(a) => NatToString(a)
    case None => IntToString(NO_NEIGHBOUR)
  }

  function AdjacentTexts(adjacents: seq<Option<nat>>): (r: seq<string>)
    ensures |r| == |adjacents| && AllWords(r)
  {
    seq(|adjacents|, e requires 0 <= e < |adjacents| => AdjacentText(adjacents[e]))
  }

  /** Triangle p: its index, then its neighbour across each edge. */
  function NeighLine(p: nat, t: Triangle): string
  {
    JoinWords([NatToString(p)] + AdjacentTexts(t.adjacents))
  }

  /** The .neigh file write_neigh produces. */
  function NeighFile(s: Surface2D): seq<string>
  {
    [NeighHeader(|s.triangles|)] + seq(|s.triangles|, p requires 0 <= p < |s.triangles| => NeighLine(p, s.triangles[p]))
  }

  /** The file name without its extension and the dot before it (remove_suffix). */
  function BaseName(filename: string, extension: string): string
    requires |extension| < |filename|
  {
    filename[..|filename| - |extension| - 1]
  }

  /** The files write creates: base name + ".node", ".ele" and ".neigh". */
  function WrittenFiles(filename: string, extension: string, s: Surface2D): seq<File>
    requires |extension| < |filename|
  {
    var base := BaseName(filename, extension);
    [File(base + NODE_SUFFIX, NodeFile(s)), File(base + ELE_SUFFIX, EleFile(s)), File(base + NEIGH_SUFFIX, NeighFile(s))]
  }

  // ---------------------------------------------------------------------
  // The writer's loops
  // ---------------------------------------------------------------------

  /** write_node: the header, then one line per vertex. */
  method WriteNode(s: Surface2D) returns (lines: seq<string>)
    ensures lines == NodeFile(s)
  {
    var n := |s.points|;
    lines := [NodeHeader(n)];
    for v := 0 to n
      invariant |lines| == v + 1 && lines[0] == NodeHeader(n)
      invariant forall k | 0 <= k < v :: lines[k + 1] == NodeLine(k, s.points[k])
    {
      lines := lines + [NodeLine(v, s.points[v])];
    }
  }

  /** write_ele: the header, then one line per triangle. */
  method WriteEle(s: Surface2D) returns (lines: seq<string>)
    ensures lines == EleFile(s)
  {
    var m := |s.triangles|;
    lines := [EleHeader(m)];
    for p := 0 to m
      invariant |lines| == p + 1 && lines[0] == EleHeader(m)
      invariant forall k | 0 <= k < p :: lines[k + 1] == EleLine(k, s.triangles[k])
    {
      lines := lines + [EleLine(p, s.triangles[p])];
    }
  }

  /** write_neigh: the header, then one line per triangle. */
  method WriteNeigh(s: Surface2D) returns (lines: seq<string>)
    ensures lines == NeighFile(s)
  {
    var m := |s.triangles|;
    lines := [NeighHeader(m)];
    for p := 0 to m
      invariant |lines| == p + 1 && lines[0] == NeighHeader(m)
      invariant forall k | 0 <= k < p :: lines[k + 1] == NeighLine(k, s.triangles[k])
    {
      lines := lines + [NeighLine(p, s.triangles[p])];
    }
  }

  /** TriangleOutput::write: the extension and its dot removed, then the three files. */
  method Write(filename: string, extension: string, s: Surface2D) returns (files: seq<File>)
    requires |extension| < |filename|
    ensures files == WrittenFiles(filename, extension, s)
  {
    var base := filename[..|filename| - |extension| - 1];
    var node := WriteNode(s);
    var ele := WriteEle(s);
    var neigh := WriteNeigh(s);
    files := [File(base + NODE_SUFFIX, node), File(base + ELE_SUFFIX, ele), File(base + NEIGH_SUFFIX, neigh)];
  }

  // ---------------------------------------------------------------------
  // Reading the files back
  // ---------------------------------------------------------------------

  /** The header: a count, then the fixed tokens. */
  function ReadHeader(line: string, tail: seq<string>): Option<nat>
  {
    var t := Split(line);
    if |t| == |tail| + 1 && t[1..] == tail then ParseNat(t[0]) else None
  }

  /** A file: a header whose count is the number of records after it, each read by `record` with its index. */
  function ReadFile<T>(lines: seq<string>, tail: seq<string>, record: (string, nat) -> Option<T>): (r: Option<seq<T>>)
    ensures r.Some? ==> |r.value| == |lines| - 1
  {
    if |lines| > 0 && ReadHeader(lines[0], tail) == Some(|lines| - 1) then
      var body := lines[1..];
      AllRead(seq(|body|, k requires 0 <= k < |body| => record(body[k], k)))
    else None
  }

  /** A vertex record: index k, then the two coordinates. */
  function NodeRecord(line: string, k: nat): Option<Point2D>
  {
    var t := Split(line);
    if |t| == 3 && ParseNat(t[0]) == Some(k) then Some(Point2D(t[1], t[2])) else None
  }

  /** A triangle record: index k, then three vertex indices. */
  function EleRecord(line: string, k: nat): Option<seq<nat>>
  {
    var t := Split(line);
    if |t| == 4 && ParseNat(t[0]) == Some(k) then
      match (ParseNat(t[1]), ParseNat(t[2]), ParseNat(t[3]))
      case (Some(a), Some(b), Some(c)) => Some([a, b, c])
      case _ => None
    else None
  }

  /** A neighbour token: -1 for none, a triangle index otherwise. */
  function ReadAdjacent(w: string): (r: Option<Option<nat>>)
    ensures r == Some(None) <==> ParseInt(w) == Some(NO_NEIGHBOUR)
  {
    match ParseInt(w)
    case Some(a) =>
      if a == NO_NEIGHBOUR then Some(None)
      else if a >= 0 then Some(Some(a as nat))
      else None
    case None => None
  }

  /** A neighbour record: index k, then three neighbours. */
  function NeighRecord(line: string, k: nat): Option<seq<Option<nat>>>
  {
    var t := Split(line);
    if |t| == 4 && ParseNat(t[0]) == Some(k) then
      match (ReadAdjacent(t[1]), ReadAdjacent(t[2]), ReadAdjacent(t[3]))
      case (Some(a), Some(b), Some(c)) => Some([a, b, c])
      case _ => None
    else None
  }

  /** The vertices a .node file lists, in record order. */
  function ReadNodeFile(lines: seq<string>): Option<seq<Point2D>>
  {
    ReadFile(lines, NODE_HEADER_TAIL, NodeRecord)
  }

  /** The triangles' vertices an .ele file lists, in record order. */
  function ReadEleFile(lines: seq<string>): Option<seq<seq<nat>>>
  {
    ReadFile(lines, ELE_HEADER_TAIL, EleRecord)
  }

  /** The triangles' neighbours a .neigh file lists, in record order. */
  function ReadNeighFile(lines: seq<string>): Option<seq<seq<Option<nat>>>>
  {
    ReadFile(lines, NEIGH_HEADER_TAIL, NeighRecord)
  }

  // ---------------------------------------------------------------------
  // Round trips
  // ---------------------------------------------------------------------

  lemma HeaderReadsBack(n: nat, tail: seq<string>)
    requires AllWords(tail)
    ensures ReadHeader(JoinWords([NatToString(n)] + tail), tail) == Some(n)
  {
    var ws := [NatToString(n)] + tail;
    SplitJoinWords(ws);
    assert ws[1..] == tail;
    NatToStringRoundTrip(n);
  }

  /** A record line splits back into its index and its fields. */
  lemma RecordReadsBack(k: nat, fields: seq<string>)
    requires AllWords(fields)
    ensures Split(JoinWords([NatToString(k)] + fields)) == [NatToString(k)] + fields
    ensures ParseNat(NatToString(k)) == Some(k)
  {
    SplitJoinWords([NatToString(k)] + fields);
    NatToStringRoundTrip(k);
  }

  /**
   * A file whose header gives the count of the records after it and
   * whose record k reads back as values[k] reads back as values.
   */
  lemma FileReadsBack<T>(header: string, records: seq<string>, tail: seq<string>, record: (string, nat) -> Option<T>, values: seq<T>)
    requires |records| == |values| && ReadHeader(header, tail) == Some(|records|)
    requires forall k | 0 <= k < |records| :: record(records[k], k) == Some(values[k])
    ensures ReadFile([header] + records, tail, record) == Some(values)
  {
    var lines := [header] + records;
    assert lines[1..] == records;
    var rs := seq(|records|, k requires 0 <= k < |records| => record(records[k], k));
    assert AllRead(rs).value == values;
  }

  /** Vertex k's line reads back as its coordinates. */
  lemma NodeLineReadsBack(k: nat, p: Point2D)
    requires IsWord(p.x) && IsWord(p.y)
    ensures NodeRecord(NodeLine(k, p), k) == Some(p)
  {
    RecordReadsBack(k, [p.x, p.y]);
    assert [NatToString(k)] + [p.x, p.y] == [NatToString(k), p.x, p.y];
  }

  /** The .node file lists every vertex, in index order, with its coordinates. */
  lemma NodeFileReadsBack(s: Surface2D)
    requires WellFormed(s)
    ensures ReadNodeFile(NodeFile(s)) == Some(s.points)
  {
    var records := NodeFile(s)[1..];
    HeaderReadsBack(|s.points|, NODE_HEADER_TAIL);
    forall k | 0 <= k < |records|
      ensures NodeRecord(records[k], k) == Some(s.points[k])
    {
      assert records[k] == NodeLine(k, s.points[k]);
      NodeLineReadsBack(k, s.points[k]);
    }
    assert NodeFile(s) == [NodeHeader(|s.points|)] + records;
    FileReadsBack(NodeHeader(|s.points|), records, NODE_HEADER_TAIL, NodeRecord, s.points);
  }

  /** The vertices of every triangle, in index order. */
  function TriangleVertices(s: Surface2D): seq<seq<nat>>
  {
    seq(|s.triangles|, p requires 0 <= p < |s.triangles| => s.triangles[p].vertices)
  }

  /** The neighbours of every triangle, in index order. */
  function TriangleAdjacents(s: Surface2D): seq<seq<Option<nat>>>
  {
    seq(|s.triangles|, p requires 0 <= p < |s.triangles| => s.triangles[p].adjacents)
  }

  /** Triangle k's line reads back as its three vertices. */
  lemma EleLineReadsBack(k: nat, t: Triangle)
    requires |t.vertices| == 3
    ensures EleRecord(EleLine(k, t), k) == Some(t.vertices)
  {
    var vs := t.vertices;
    RecordReadsBack(k, NatStrings(vs));
    NatToStringRoundTrip(vs[0]);
    NatToStringRoundTrip(vs[1]);
    NatToStringRoundTrip(vs[2]);
    assert [vs[0], vs[1], vs[2]] == vs;
  }

  /** The .ele file lists every triangle, in index order, with its three vertices. */
  lemma EleFileReadsBack(s: Surface2D)
    requires WellFormed(s)
    ensures ReadEleFile(EleFile(s)) == Some(TriangleVertices(s))
  {
    var records := EleFile(s)[1..];
    HeaderReadsBack(|s.triangles|, ELE_HEADER_TAIL);
    forall k | 0 <= k < |records|
      ensures EleRecord(records[k], k) == Some(TriangleVertices(s)[k])
    {
      EleLineReadsBack(k, s.triangles[k]);
    }
    assert EleFile(s) == [EleHeader(|s.triangles|)] + records;
    FileReadsBack(EleHeader(|s.triangles|), records, ELE_HEADER_TAIL, EleRecord, TriangleVertices(s));
  }

  /** A neighbour is read back as written, -1 included. */
  lemma AdjacentReadsBack(adjacent: Option<nat>)
    ensures ReadAdjacent(AdjacentText(adjacent)) == Some(adjacent)
  {
    match adjacent
    case Some(a) =>
      IntToStringRoundTrip(a);
    case None =>
      IntToStringRoundTrip(NO_NEIGHBOUR);
  }

  /** Triangle k's line reads back as its three neighbours. */
  lemma NeighLineReadsBack(k: nat, t: Triangle)
    requires |t.adjacents| == 3
    ensures NeighRecord(NeighLine(k, t), k) == Some(t.adjacents)
  {
    var adj := t.adjacents;
    RecordReadsBack(k, AdjacentTexts(adj));
    AdjacentReadsBack(adj[0]);
    AdjacentReadsBack(adj[1]);
    AdjacentReadsBack(adj[2]);
    assert [adj[0], adj[1], adj[2]] == adj;
  }

  /** The .neigh file lists every triangle, in index order, with its neighbour across each edge. */
  lemma NeighFileReadsBack(s: Surface2D)
    requires WellFormed(s)
    ensures ReadNeighFile(NeighFile(s)) == Some(TriangleAdjacents(s))
  {
    var records := NeighFile(s)[1..];
    HeaderReadsBack(|s.triangles|, NEIGH_HEADER_TAIL);
    forall k | 0 <= k < |records|
      ensures NeighRecord(records[k], k) == Some(TriangleAdjacents(s)[k])
    {
      NeighLineReadsBack(k, s.triangles[k]);
    }
    assert NeighFile(s) == [NeighHeader(|s.triangles|)] + records;
    FileReadsBack(NeighHeader(|s.triangles|), records, NEIGH_HEADER_TAIL, NeighRecord, TriangleAdjacents(s));
  }

  /** A file named base.extension gives base.node, base.ele and base.neigh, three different names. */
  lemma WrittenNames(base: string, extension: string, s: Surface2D)
    ensures var files := WrittenFiles(base + "." + extension, extension, s);
      && files[0].name == base + NODE_SUFFIX
      && files[1].name == base + ELE_SUFFIX
      && files[2].name == base + NEIGH_SUFFIX
      && files[0].name != files[1].name && files[1].name != files[2].name && files[0].name != files[2].name
  {
    assert BaseName(base + "." + extension, extension) == base;
  }
}
