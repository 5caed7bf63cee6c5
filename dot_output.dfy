/**
 * The DOT surface writer (include/geode/io/mesh/detail/dot_surface_output_impl.hpp):
 * the edges of a surface become an undirected Graphviz graph named after
 * the surface, one "a -- b;" statement per edge, in edge order. The file
 * is modelled as its lines, without their end-of-line.
 */
module DotOutput {
  import opened Wrappers
  import opened Text

  /** The surface as the writer reads it, once its edges are enabled: its name and the two vertices of every edge. */
  datatype Surface = Surface(name: string, edges: seq<(nat, nat)>)

  const GRAPH_OPEN := "graph "
  const BODY_OPEN := " {"
  const INDENT := "    "
  const EDGE_OP := "--"
  const STATEMENT_END := ";"
  const BODY_CLOSE := "}"

  /** The first line: the graph named after the surface, then its opening brace. */
  function HeaderLine(name: string): string
  {
    GRAPH_OPEN + name + BODY_OPEN
  }

  /** The statement of an edge: its two vertices joined by the undirected edge operator. */
  function EdgeLine(e: (nat, nat)): string
  {
    INDENT + JoinWords([NatToString(e.0), EDGE_OP, NatToString(e.1)]) + STATEMENT_END
  }

  /** The file write_file produces. */
  function DotFile(s: Surface): (lines: seq<string>)
  {
    [HeaderLine(s.name)] + seq(|s.edges|, k requires 0 <= k < |s.edges| => EdgeLine(s.edges[k])) + [BODY_CLOSE]
  }

  /** write_file: the header, one statement per edge, then the closing brace. */
  method WriteFile(s: Surface) returns (lines: seq<string>)
    ensures lines == DotFile(s)
  {
    lines := [HeaderLine(s.name)];
    for k := 0 to |s.edges|
      invariant |lines| == k + 1 && lines[0] == HeaderLine(s.name)
      invariant forall j | 0 <= j < k :: lines[j + 1] == EdgeLine(s.edges[j])
    {
      lines := lines + [EdgeLine(s.edges[k])];
    }
    lines := lines + [BODY_CLOSE];
  }

  // ---------------------------------------------------------------------
  // Reading the file back
  // ---------------------------------------------------------------------

  /** The graph's name: what lies between "graph " and " {". */
  function ReadHeader(line: string): Option<string>
  {
    if |line| >= |GRAPH_OPEN| + |BODY_OPEN| && StartsWith(line, GRAPH_OPEN) && EndsWith(line, BODY_OPEN) then
      Some(line[|GRAPH_OPEN|..|line| - |BODY_OPEN|])
    else None
  }

  /** An edge statement: the indent, "a -- b", then ";". */
  function ReadEdge(line: string): Option<(nat, nat)>
  {
    if |line| >= |INDENT| + |STATEMENT_END| && StartsWith(line, INDENT) && EndsWith(line, STATEMENT_END) then
      var t := Split(line[|INDENT|..|line| - |STATEMENT_END|]);
      if |t| == 3 && t[1] == EDGE_OP then
        match (ParseNat(t[0]), ParseNat(t[2]))
        case (Some(a), Some(b)) => Some((a, b))
        case _ => None
      else None
    else None
  }

  /** A DOT file of this shape: a header line, edge statements, and a closing brace on the last line. */
  function ReadDotFile(lines: seq<string>): Option<Surface>
  {
    if |lines| >= 2 && lines[|lines| - 1] == BODY_CLOSE then
      var body := lines[1..|lines| - 1];
      match (ReadHeader(lines[0]), AllRead(seq(|body|, k requires 0 <= k < |body| => ReadEdge(body[k]))))
      case (Some(name), Some(edges)) => Some(Surface(name, edges))
      case _ => None
    else None
  }

  // ---------------------------------------------------------------------
  // Round trip
  // ---------------------------------------------------------------------

  /** The header gives back the surface's name, whatever it holds. */
  lemma HeaderReadsBack(name: string)
    ensures ReadHeader(HeaderLine(name)) == Some(name)
  {
    var line := HeaderLine(name);
    assert line[..|GRAPH_OPEN|] == GRAPH_OPEN;
    assert line[|line| - |BODY_OPEN|..] == BODY_OPEN;
    assert line[|GRAPH_OPEN|..|line| - |BODY_OPEN|] == name;
  }

  /** An edge statement gives back the edge's two vertices. */
  lemma EdgeReadsBack(e: (nat, nat))
    ensures ReadEdge(EdgeLine(e)) == Some(e)
  {
    var ws := [NatToString(e.0), EDGE_OP, NatToString(e.1)];
    var middle := JoinWords(ws);
    var line := EdgeLine(e);
    assert line[..|INDENT|] == INDENT;
    assert line[|line| - |STATEMENT_END|..] == STATEMENT_END;
    assert line[|INDENT|..|line| - |STATEMENT_END|] == middle;
    assert IsWord(EDGE_OP);
    SplitJoinWords(ws);
    NatToStringRoundTrip(e.0);
    NatToStringRoundTrip(e.1);
  }

  /** The file gives back the surface's name and every edge, in order. */
  lemma DotFileReadsBack(s: Surface)
    ensures ReadDotFile(DotFile(s)) == Some(s)
  {
    var lines := DotFile(s);
    var body := lines[1..|lines| - 1];
    HeaderReadsBack(s.name);
    var rs := seq(|body|, k requires 0 <= k < |body| => ReadEdge(body[k]));
    forall k | 0 <= k < |body|
      ensures rs[k] == Some(s.edges[k])
    {
      assert body[k] == EdgeLine(s.edges[k]);
      EdgeReadsBack(s.edges[k]);
    }
    assert AllRead(rs).value == s.edges;
  }
}
