/**
 * The GEXF graph writer (src/geode/io/mesh/gexf_output.cpp): a graph
 * becomes a GEXF 1.1 document, an undirected static graph whose nodes
 * are the vertices, with ids 0, 1, ..., and whose edges carry their
 * index as id and their two vertices as source and target. The document
 * is modelled as its tree of elements; pugixml's text layout is not part
 * of this model.
 */
module GexfOutput {
  import opened Wrappers
  import opened Text

  /** An XML attribute and its text. */
  datatype Attribute = Attribute(name: string, value: string)

  /** An XML element: its name, attributes and child elements, in document order. */
  datatype Element = Element(name: string, attributes: seq<Attribute>, children: seq<Element>)

  /** Graph as the writer reads it: its vertex count and the two vertices of every edge. */
  datatype Graph = Graph(nbVertices: nat, edges: seq<(nat, nat)>)

  const GEXF := "gexf"
  const VERSION := "version"
  const GEXF_VERSION := "1.1"
  const GRAPH := "graph"
  const DEFAULT_EDGE_TYPE := "defaultedgetype"
  const UNDIRECTED := "undirected"
  const ID_TYPE := "idtype"
  const STRING := "string"
  const TYPE := "type"
  const STATIC := "static"
  const NODES := "nodes"
  const NODE := "node"
  const EDGES := "edges"
  const EDGE := "edge"
  const COUNT := "count"
  const ID := "id"
  const SOURCE := "source"
  const TARGET := "target"

  // ---------------------------------------------------------------------
  // The document
  // ---------------------------------------------------------------------

  /** write_header's graph element, with the children written after it. */
  function GraphElement(children: seq<Element>): Element
  {
    Element(GRAPH, [Attribute(DEFAULT_EDGE_TYPE, UNDIRECTED), Attribute(ID_TYPE, STRING), Attribute(TYPE, STATIC)], children)
  }

  /** write_header's root element around the graph element. */
  function GexfElement(graph: Element): Element
  {
    Element(GEXF, [Attribute(VERSION, GEXF_VERSION)], [graph])
  }

  /** The node of vertex v: its id. */
  function NodeElement(v: nat): Element
  {
    Element(NODE, [Attribute(ID, NatToString(v))], [])
  }

  /** write_nodes: the vertex count, then one node per vertex. */
  function NodesElement(n: nat): Element
  {
    Element(NODES, [Attribute(COUNT, NatToString(n))], seq(n, v requires 0 <= v < n => NodeElement(v)))
  }

  /** The edge with index id: its id, then its two vertices. */
  function EdgeElement(id: nat, e: (nat, nat)): Element
  {
    Element(EDGE, [Attribute(ID, NatToString(id)), Attribute(SOURCE, NatToString(e.0)), Attribute(TARGET, NatToString(e.1))], [])
  }

  /** write_edges: the edge count, then one edge per graph edge. */
  function EdgesElement(edges: seq<(nat, nat)>): Element
  {
    Element(EDGES, [Attribute(COUNT, NatToString(|edges|))],
      seq(|edges|, k requires 0 <= k < |edges| => EdgeElement(k, edges[k])))
  }

  /** The document GEXFOutput::write saves. */
  function Document(g: Graph): Element
  {
    GexfElement(GraphElement([NodesElement(g.nbVertices), EdgesElement(g.edges)]))
  }

  // ---------------------------------------------------------------------
  // The writer's loops
  // ---------------------------------------------------------------------

  /** write_nodes: one node appended per vertex. */
  method WriteNodes(n: nat) returns (nodes: Element)
    ensures nodes == NodesElement(n)
  {
    var children: seq<Element> := [];
    for v := 0 to n
      invariant |children| == v
      invariant forall k | 0 <= k < v :: children[k] == NodeElement(k)
    {
      children := children + [NodeElement(v)];
    }
    nodes := Element(NODES, [Attribute(COUNT, NatToString(n))], children);
  }

  /** write_edges: one edge appended per graph edge. */
  method WriteEdges(edges: seq<(nat, nat)>) returns (element: Element)
    ensures element == EdgesElement(edges)
  {
    var children: seq<Element> := [];
    for k := 0 to |edges|
      invariant |children| == k
      invariant forall j | 0 <= j < k :: children[j] == EdgeElement(j, edges[j])
    {
      children := children + [EdgeElement(k, edges[k])];
    }
    element := Element(EDGES, [Attribute(COUNT, NatToString(|edges|))], children);
  }

  /** GEXFOutput::write: the document saved under the file name, which is the one name returned. */
  method Write(filename: string, g: Graph) returns (document: Element, written: seq<string>)
    ensures document == Document(g)
    ensures written == [filename]
  {
    var nodes := WriteNodes(g.nbVertices);
    var edges := WriteEdges(g.edges);
    document := GexfElement(GraphElement([nodes, edges]));
    written := [filename];
  }

  // ---------------------------------------------------------------------
  // Reading the document back
  // ---------------------------------------------------------------------

  /** The value of the first attribute called `name`, as pugixml's attribute(name) finds it. */
  function Attr(attributes: seq<Attribute>, name: string): (r: Option<string>)
    ensures r.Some? <==> exists k | 0 <= k < |attributes| :: attributes[k].name == name
  {
    if attributes == [] then None
    else if attributes[0].name == name then Some(attributes[0].value)
    else
      var r := Attr(attributes[1..], name);
      assert forall k | 1 <= k < |attributes| :: attributes[k] == attributes[1..][k - 1];
      r
  }

  /** An attribute read as a decimal number. */
  function NatAttr(e: Element, name: string): Option<nat>
  {
    match Attr(e.attributes, name)
    case Some(w) => ParseNat(w)
    case None => None
  }

  /** The node at position v has id v. */
  predicate NodeRead(e: Element, v: nat)
  {
    e.name == NODE && NatAttr(e, ID) == Some(v)
  }

  /** A nodes element: its count, and that many nodes numbered from 0. */
  function ReadNodes(e: Element): (r: Option<nat>)
    ensures r.Some? ==> r.value == |e.children|
  {
    if e.name == NODES && NatAttr(e, COUNT) == Some(|e.children|)
      && forall v | 0 <= v < |e.children| :: NodeRead(e.children[v], v)
    then Some(|e.children|)
    else None
  }

  /** The edge at position k: id k, then its source and target. */
  function EdgeRead(e: Element, k: nat): Option<(nat, nat)>
  {
    if e.name == EDGE && NatAttr(e, ID) == Some(k) then
      match (NatAttr(e, SOURCE), NatAttr(e, TARGET))
      case (Some(a), Some(b)) => Some((a, b))
      case _ => None
    else None
  }

  /** An edges element: its count, and that many edges numbered from 0. */
  function ReadEdges(e: Element): (r: Option<seq<(nat, nat)>>)
    ensures r.Some? ==> |r.value| == |e.children|
  {
    if e.name == EDGES && NatAttr(e, COUNT) == Some(|e.children|) then
      AllRead(seq(|e.children|, k requires 0 <= k < |e.children| => EdgeRead(e.children[k], k)))
    else None
  }

  /** The graph of a GEXF 1.1 document holding one undirected graph of nodes then edges. */
  function ReadDocument(d: Element): Option<Graph>
  {
    if d.name == GEXF && Attr(d.attributes, VERSION) == Some(GEXF_VERSION) && |d.children| == 1 then
      var graph := d.children[0];
      if graph.name == GRAPH && Attr(graph.attributes, DEFAULT_EDGE_TYPE) == Some(UNDIRECTED) && |graph.children| == 2 then
        match (ReadNodes(graph.children[0]), ReadEdges(graph.children[1]))
        case (Some(n), Some(edges)) => Some(Graph(n, edges))
        case _ => None
      else None
    else None
  }

  // ---------------------------------------------------------------------
  // Round trips
  // ---------------------------------------------------------------------

  /** Every node has the id of its position. */
  lemma NodesReadBack(n: nat)
    ensures ReadNodes(NodesElement(n)) == Some(n)
  {
    NatToStringRoundTrip(n);
    forall v | 0 <= v < n
      ensures NodeRead(NodesElement(n).children[v], v)
    {
      NatToStringRoundTrip(v);
    }
  }

  /** Edge k reads back as its id, source and target. */
  lemma EdgeReadsBack(k: nat, e: (nat, nat))
    ensures EdgeRead(EdgeElement(k, e), k) == Some(e)
  {
    NatToStringRoundTrip(k);
    NatToStringRoundTrip(e.0);
    NatToStringRoundTrip(e.1);
    var attributes := EdgeElement(k, e).attributes;
    assert Attr(attributes, ID) == Some(NatToString(k));
    assert Attr(attributes, SOURCE) == Some(NatToString(e.0));
    assert SOURCE[0] != TARGET[0] && |ID| != |SOURCE| && |ID| != |TARGET|;
    var last := attributes[1..][1..];
    assert last == [Attribute(TARGET, NatToString(e.1))];
    assert Attr(last, TARGET) == Some(NatToString(e.1));
    assert Attr(attributes[1..], TARGET) == Attr(last, TARGET);
  }

  /** Every edge comes back, in index order, with its two vertices. */
  lemma EdgesReadBack(edges: seq<(nat, nat)>)
    ensures ReadEdges(EdgesElement(edges)) == Some(edges)
  {
    var e := EdgesElement(edges);
    NatToStringRoundTrip(|edges|);
    var rs := seq(|e.children|, k requires 0 <= k < |e.children| => EdgeRead(e.children[k], k));
    forall k | 0 <= k < |edges|
      ensures rs[k] == Some(edges[k])
    {
      EdgeReadsBack(k, edges[k]);
    }
    assert AllRead(rs).value == edges;
  }

  /** The document holds the graph: its vertex count and every edge, in order. */
  lemma DocumentReadsBack(g: Graph)
    ensures ReadDocument(Document(g)) == Some(g)
  {
    NodesReadBack(g.nbVertices);
    EdgesReadBack(g.edges);
  }
}
