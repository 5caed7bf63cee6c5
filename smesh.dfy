/**
 * The SMESH readers (include/geode/io/mesh/internal/smesh_input.hpp and its
 * older copy include/geode/io/mesh/private/smesh_input.h, specialised for
 * curves by src/geode/io/mesh/smesh_curve_input.cpp). A file is a point
 * count line, one "index x y z" line per point, an element count line and
 * one "tag v1 .. vk" line per element. Each point line maps its file index
 * to the next vertex; element vertices are file indices translated through
 * that map. Coordinates are kept as their tokens.
 */
module Smesh {
  import opened Wrappers
  import opened Text
  import opened Streams
  import VtkAscii

  // Messages of the exceptions the reader throws
  const VERTEX_INDEX_ERROR: string := "[SMESHInput::read_points] Cannot read vertex index"
  const MISSING_COORDINATE: string := "[SMESHInput::read_points] Missing coordinate"
  const POINTS_COUNT_ERROR: string := "[SMESHInput::read_points] Cannot read number of points"
  const EDGE_VERTEX_ERROR: string := "[SMESHInput::read_elements] Cannot read edge vertex index"
  const UNKNOWN_VERTEX: string := "[SMESHInput::read_elements] Unknown vertex index"
  const MISSING_VERTEX: string := "[SMESHInput::read_elements] Missing vertex index"
  const EDGES_COUNT_ERROR: string := "[SMESHInput::read_elements] Cannot read number of edges"
  const INDEX_ERROR: string := "[string_to_index] Failed to convert string to index"

  /** tokens(): a line stripped of surrounding whitespace and cut at every single space. */
  function Tokens(line: string): (r: seq<string>)
    ensures |r| > 0
  {
    VtkAscii.SplitOn(Trim(line), ' ')
  }

  /** The tokens of every line of a file. */
  function Rows(lines: seq<string>): (r: seq<seq<string>>)
    ensures |r| == |lines|
  {
    seq(|lines|, i requires 0 <= i < |lines| => Tokens(lines[i]))
  }

  /** The tokens of line i; std::getline past the end yields an empty line, which is one empty token. */
  function RowAt(rows: seq<seq<string>>, i: nat): seq<string>
  {
    if i < |rows| then rows[i] else [""]
  }

  lemma RowAtTokens(lines: seq<string>, i: nat)
    ensures RowAt(Rows(lines), i) == Tokens(LineAt(lines, i))
  {
    if i >= |lines| {
      assert Trim("") == "";
    }
  }

  /** tokens().front(): the first token of a row. */
  function Front(row: seq<string>): string
  {
    if row == [] then "" else row[0]
  }

  /** The count a header row starts with. */
  function CountOf(row: seq<string>): Option<Index>
  {
    ParseIndex(Front(row))
  }

  datatype PointRow = PointRow(id: Index, coordinates: seq<string>)

  /** A point row: its file index, then its three coordinate tokens. */
  function PointLine(row: seq<string>): (r: Result<PointRow>)
    ensures r.Ok? ==> |r.value.coordinates| == 3
  {
    match ParseIndex(Front(row))
    case None => Err(VERTEX_INDEX_ERROR)
    case Some(id) =>
      if |row| < 4 then Err(MISSING_COORDINATE)
      else Ok(PointRow(id, row[1..4]))
  }

  /** The n point rows from row `first` on, the first failing row stopping the read. */
  function PointRows(rows: seq<seq<string>>, first: nat, n: nat): (r: Result<seq<PointRow>>)
    ensures r.Ok? ==> |r.value| == n
  {
    if n == 0 then Ok([])
    else
      match PointRows(rows, first, n - 1)
      case Err(e) => Err(e)
      case Ok(points) =>
        match PointLine(RowAt(rows, first + n - 1))
        case Err(e) => Err(e)
        case Ok(point) => Ok(points + [point])
  }

  /** The points section starting at row `header`: its count row and its point rows. */
  function PointsSection(rows: seq<seq<string>>, header: nat): (r: Result<seq<PointRow>>)
    ensures r.Ok? ==> CountOf(RowAt(rows, header)).Some? && CountOf(RowAt(rows, header)).value == |r.value|
  {
    match CountOf(RowAt(rows, header))
    case None => Err(POINTS_COUNT_ERROR)
    case Some(n) => PointRows(rows, header + 1, n)
  }

  function Ids(points: seq<PointRow>): (r: seq<Index>)
    ensures |r| == |points|
  {
    if points == [] then [] else Ids(points[..|points| - 1]) + [points[|points| - 1].id]
  }

  function Coordinates(points: seq<PointRow>): (r: seq<seq<string>>)
    ensures |r| == |points|
  {
    if points == [] then [] else Coordinates(points[..|points| - 1]) + [points[|points| - 1].coordinates]
  }

  lemma {:induction false} IdsAt(points: seq<PointRow>)
    ensures forall p | 0 <= p < |points| :: Ids(points)[p] == points[p].id
  {
    if points != [] {
      IdsAt(points[..|points| - 1]);
    }
  }

  /** The point create_vertices gives a vertex before set_point. */
  const ORIGIN: seq<string> := ["0", "0", "0"]

  function Origins(n: nat): (r: seq<seq<string>>)
    ensures |r| == n
  {
    if n == 0 then [] else Origins(n - 1) + [ORIGIN]
  }

  /**
   * vertices_ after one emplace per point row: emplace leaves an index
   * already present untouched, so each index maps to the first row that
   * carries it.
   */
  function IndexMap(ids: seq<Index>): (m: map<Index, nat>)
  {
    if ids == [] then map[]
    else
      var m := IndexMap(ids[..|ids| - 1]);
      var id := ids[|ids| - 1];
      if id in m then m else m[id := |ids| - 1]
  }

  /** An index is mapped exactly when some point row carries it, and it maps to the first such row. */
  lemma {:induction false} IndexMapFirst(ids: seq<Index>)
    ensures forall id: Index :: id in IndexMap(ids) <==> id in ids
    ensures forall id | id in IndexMap(ids) ::
      IndexMap(ids)[id] < |ids| && ids[IndexMap(ids)[id]] == id
      && forall j | 0 <= j < IndexMap(ids)[id] :: ids[j] != id
  {
    if ids != [] {
      var init := ids[..|ids| - 1];
      IndexMapFirst(init);
      forall id: Index
        ensures id in IndexMap(ids) <==> id in ids
      {
        assert id in ids <==> id in init || id == ids[|ids| - 1] by {
          assert ids == init + [ids[|ids| - 1]];
        }
      }
    }
  }

  /** Every mapped vertex is one of the vertices the points section created. */
  lemma IndexMapBound(ids: seq<Index>)
    ensures forall id | id in IndexMap(ids) :: IndexMap(ids)[id] < |ids|
  {
    IndexMapFirst(ids);
  }

  /**
   * The loop of read_elements over one row's vertex tokens: each is
   * converted (a failure throws) and looked up with vertices_.at (an
   * unknown index throws), left to right.
   */
  /** The first token that fails decides the error, whatever follows it. */
  lemma {:induction false} ResolveStop(tokens: seq<string>, d: nat, vertices: map<Index, nat>)
    requires d < |tokens| && Resolve(tokens[..d], vertices).Ok? && Resolve(tokens[..d + 1], vertices).Err?
    ensures Resolve(tokens, vertices) == Resolve(tokens[..d + 1], vertices)
  {
    if |tokens| > d + 1 {
      var init := tokens[..|tokens| - 1];
      assert init[..d] == tokens[..d] && init[..d + 1] == tokens[..d + 1];
      ResolveStop(init, d, vertices);
    } else {
      assert tokens[..d + 1] == tokens;
    }
  }

  function Resolve(tokens: seq<string>, vertices: map<Index, nat>): (r: Result<seq<nat>>)
    ensures r.Ok? ==> |r.value| == |tokens|
  {
    if tokens == [] then Ok([])
    else
      var last := tokens[|tokens| - 1];
      match Resolve(tokens[..|tokens| - 1], vertices)
      case Err(e) => Err(e)
      case Ok(vs) =>
        match ParseIndex(last)
        case None => Err(EDGE_VERTEX_ERROR)
        case Some(index) =>
          if index in vertices then Ok(vs + [vertices[index]])
          else Err(UNKNOWN_VERTEX)
  }

  /**
   * A row resolves exactly when each of its tokens converts to a file index
   * of the map, and then vertex d is the vertex that index d names.
   */
  lemma {:induction false} ResolveMeaning(tokens: seq<string>, vertices: map<Index, nat>)
    ensures Resolve(tokens, vertices).Ok? <==> forall d | 0 <= d < |tokens| ::
      ParseIndex(tokens[d]).Some? && ParseIndex(tokens[d]).value in vertices
    ensures Resolve(tokens, vertices).Ok? ==>
      forall d | 0 <= d < |tokens| :: Resolve(tokens, vertices).value[d] == vertices[ParseIndex(tokens[d]).value]
  {
    if tokens != [] {
      var init := tokens[..|tokens| - 1];
      ResolveMeaning(init, vertices);
      assert forall d | 0 <= d < |init| :: init[d] == tokens[d];
    }
  }

  /** One element row: the `arity` vertex tokens after its leading tag, resolved. */
  function ElementLine(row: seq<string>, arity: nat, vertices: map<Index, nat>): (r: Result<seq<nat>>)
    ensures r.Ok? ==> |r.value| == arity
  {
    if |row| < arity + 1 then Err(MISSING_VERTEX)
    else Resolve(row[1..arity + 1], vertices)
  }

  function ElementRows(rows: seq<seq<string>>, first: nat, n: nat, arity: nat, vertices: map<Index, nat>)
    : (r: Result<seq<seq<nat>>>)
    ensures r.Ok? ==> |r.value| == n
  {
    if n == 0 then Ok([])
    else
      match ElementRows(rows, first, n - 1, arity, vertices)
      case Err(e) => Err(e)
      case Ok(elements) =>
        match ElementLine(RowAt(rows, first + n - 1), arity, vertices)
        case Err(e) => Err(e)
        case Ok(element) => Ok(elements + [element])
  }

  function ElementsSection(rows: seq<seq<string>>, header: nat, arity: nat, vertices: map<Index, nat>)
    : (r: Result<seq<seq<nat>>>)
    ensures r.Ok? ==> CountOf(RowAt(rows, header)).Some? && CountOf(RowAt(rows, header)).value == |r.value|
  {
    match CountOf(RowAt(rows, header))
    case None => Err(EDGES_COUNT_ERROR)
    case Some(n) => ElementRows(rows, header + 1, n, arity, vertices)
  }

  /** What the reader builds: one point per point row and one create_element call per element row. */
  datatype Mesh = Mesh(points: seq<seq<string>>, elements: seq<seq<nat>>)

  /** read_file: the points section, then the elements section right after it. */
  function ReadSmesh(rows: seq<seq<string>>, arity: nat): (r: Result<Mesh>)
  {
    match PointsSection(rows, 0)
    case Err(e) => Err(e)
    case Ok(points) =>
      match ElementsSection(rows, 1 + |points|, arity, IndexMap(Ids(points)))
      case Err(e) => Err(e)
      case Ok(elements) => Ok(Mesh(Coordinates(points), elements))
  }

  /** Every vertex of every element row read is a value of the map. */
  lemma {:induction false} ElementRowsBound(rows: seq<seq<string>>, first: nat, n: nat, arity: nat, vertices: map<Index, nat>, bound: nat)
    requires forall id | id in vertices :: vertices[id] < bound
    requires ElementRows(rows, first, n, arity, vertices).Ok?
    ensures forall e | 0 <= e < n :: |ElementRows(rows, first, n, arity, vertices).value[e]| == arity
    ensures forall e, d | 0 <= e < n && 0 <= d < |ElementRows(rows, first, n, arity, vertices).value[e]| ::
      ElementRows(rows, first, n, arity, vertices).value[e][d] < bound
  {
    if n > 0 {
      ElementRowsBound(rows, first, n - 1, arity, vertices, bound);
      var row := RowAt(rows, first + n - 1);
      if |row| >= arity + 1 {
        ResolveMeaning(row[1..arity + 1], vertices);
      }
    }
  }

  /**
   * A read that succeeds creates as many vertices as the points count and
   * as many elements as the elements count, each element with `arity`
   * vertices, every one of them a vertex the points section created.
   */
  lemma ReadSmeshValid(rows: seq<seq<string>>, arity: nat)
    requires ReadSmesh(rows, arity).Ok?
    ensures var mesh := ReadSmesh(rows, arity).value;
      && CountOf(RowAt(rows, 0)).Some? && CountOf(RowAt(rows, 0)).value == |mesh.points|
      && CountOf(RowAt(rows, 1 + |mesh.points|)).Some?
      && CountOf(RowAt(rows, 1 + |mesh.points|)).value == |mesh.elements|
      && (forall e | 0 <= e < |mesh.elements| :: |mesh.elements[e]| == arity)
      && forall e, d | 0 <= e < |mesh.elements| && 0 <= d < arity :: mesh.elements[e][d] < |mesh.points|
  {
    var points := PointsSection(rows, 0).value;
    IndexMapBound(Ids(points));
    ElementRowsBound(rows, 2 + |points|, CountOf(RowAt(rows, 1 + |points|)).value, arity, IndexMap(Ids(points)), |points|);
  }

  /**
   * With point rows numbered 1, 2, .. n in order, as files usually are,
   * file index k names vertex k − 1.
   */
  lemma ConsecutiveIds(ids: seq<Index>)
    requires forall p | 0 <= p < |ids| :: ids[p] == p + 1
    ensures forall id: Index :: id in IndexMap(ids) <==> 1 <= id <= |ids|
    ensures forall id | id in IndexMap(ids) :: IndexMap(ids)[id] == id - 1
  {
    IndexMapFirst(ids);
    forall id: Index | 1 <= id <= |ids|
      ensures id in ids
    {
      assert ids[id - 1] == id;
    }
  }

  // ---------------------------------------------------------------------
  // is_loadable
  // ---------------------------------------------------------------------

  /** The leading tags of the n element rows from row `first` on, each converted. */
  function ElementTags(rows: seq<seq<string>>, first: nat, n: nat): (r: Result<seq<Index>>)
    ensures r.Ok? ==> |r.value| == n
  {
    if n == 0 then Ok([])
    else
      match ElementTags(rows, first, n - 1)
      case Err(e) => Err(e)
      case Ok(tags) =>
        match CountOf(RowAt(rows, first + n - 1))
        case None => Err(INDEX_ERROR)
        case Some(tag) => Ok(tags + [tag])
  }

  /** Each tag read is its row's leading token, converted. */
  lemma {:induction false} ElementTagsAt(rows: seq<seq<string>>, first: nat, n: nat)
    requires ElementTags(rows, first, n).Ok?
    ensures forall i | first <= i < first + n :: CountOf(RowAt(rows, i)) == Some(ElementTags(rows, first, n).value[i - first])
  {
    if n > 0 {
      ElementTagsAt(rows, first, n - 1);
    }
  }

  /** How many of `tags` equal `tag`. */
  function Occurrences(tags: seq<Index>, tag: Index): (c: nat)
    ensures c <= |tags|
  {
    if tags == [] then 0
    else Occurrences(tags[..|tags| - 1], tag) + (if tags[|tags| - 1] == tag then 1 else 0)
  }

  lemma {:induction false} OccurrencesAll(tags: seq<Index>, tag: Index)
    ensures Occurrences(tags, tag) == |tags| <==> forall e | 0 <= e < |tags| :: tags[e] == tag
    ensures Occurrences(tags, tag) == 0 <==> forall e | 0 <= e < |tags| :: tags[e] != tag
  {
    if tags != [] {
      var init := tags[..|tags| - 1];
      OccurrencesAll(init, tag);
      assert forall e | 0 <= e < |init| :: init[e] == tags[e];
    }
  }

  /**
   * is_loadable: the point rows are skipped, each element row's tag is
   * counted, and the result is the share of element rows whose tag is
   * `element`, or 0 when no row has it.
   */
  function LoadableRatio(rows: seq<seq<string>>, element: Index): (r: Result<real>)
  {
    match CountOf(RowAt(rows, 0))
    case None => Err(INDEX_ERROR)
    case Some(nbPoints) => LoadableElements(rows, element, 1 + nbPoints)
  }

  /** The part of is_loadable after the point rows: the elements count row at `header`, then the tags. */
  function LoadableElements(rows: seq<seq<string>>, element: Index, header: nat): (r: Result<real>)
  {
    match CountOf(RowAt(rows, header))
    case None => Err(INDEX_ERROR)
    case Some(nbElements) =>
      match ElementTags(rows, header + 1, nbElements)
      case Err(e) => Err(e)
      case Ok(tags) => Ok(Share(Occurrences(tags, element), nbElements))
  }

  /** count / total as a double, 0 when nothing was counted. */
  function Share(count: nat, total: nat): real
    requires count <= total
  {
    if count == 0 then 0.0 else count as real / total as real
  }

  /** The element rows' tags, when is_loadable can read them. */
  predicate TagsAre(rows: seq<seq<string>>, first: nat, n: nat, element: Index, all: bool)
  {
    forall i | first <= i < first + n :: (CountOf(RowAt(rows, i)) == Some(element)) == all
  }

  /** The ratio is a fraction: 1 exactly when every element row has the tag, 0 exactly when none has. */
  lemma LoadableRatioMeaning(rows: seq<seq<string>>, element: Index)
    requires LoadableRatio(rows, element).Ok?
    ensures var r := LoadableRatio(rows, element).value;
      var nbPoints: nat := CountOf(RowAt(rows, 0)).value;
      var nbElements: nat := CountOf(RowAt(rows, 1 + nbPoints)).value;
      && 0.0 <= r <= 1.0
      && (r == 0.0 <==> TagsAre(rows, 2 + nbPoints, nbElements, element, false))
      && (nbElements > 0 ==> (r == 1.0 <==> TagsAre(rows, 2 + nbPoints, nbElements, element, true)))
  {
    var nbPoints: nat := CountOf(RowAt(rows, 0)).value;
    var nbElements: nat := CountOf(RowAt(rows, 1 + nbPoints)).value;
    var tags := ElementTags(rows, 2 + nbPoints, nbElements).value;
    TagsMeaning(rows, 2 + nbPoints, nbElements, element, tags);
    Fraction(Occurrences(tags, element), nbElements);
    assert LoadableRatio(rows, element).value == Share(Occurrences(tags, element), nbElements);
  }

  lemma TagsMeaning(rows: seq<seq<string>>, first: nat, n: nat, element: Index, tags: seq<Index>)
    requires ElementTags(rows, first, n) == Ok(tags)
    ensures Occurrences(tags, element) == 0 <==> TagsAre(rows, first, n, element, false)
    ensures Occurrences(tags, element) == n <==> TagsAre(rows, first, n, element, true)
  {
    ElementTagsAt(rows, first, n);
    OccurrencesAll(tags, element);
    if Occurrences(tags, element) == 0 {
      forall i | first <= i < first + n
        ensures CountOf(RowAt(rows, i)) != Some(element)
      {
        assert tags[i - first] != element;
      }
    } else {
      var e :| 0 <= e < n && tags[e] == element;
      assert CountOf(RowAt(rows, first + e)) == Some(element);
    }
    if Occurrences(tags, element) == n {
      forall i | first <= i < first + n
        ensures CountOf(RowAt(rows, i)) == Some(element)
      {
        assert tags[i - first] == element;
      }
    } else {
      var e :| 0 <= e < n && tags[e] != element;
      assert CountOf(RowAt(rows, first + e)) != Some(element);
    }
  }

  /** count / n, for 0 < count <= n, lies in (0, 1] and is 1 only for count == n. */
  lemma Fraction(count: nat, n: nat)
    requires count <= n
    ensures count != 0 ==> 0.0 < count as real / n as real <= 1.0
    ensures count != 0 ==> (count as real / n as real == 1.0 <==> count == n)
  {
  }

  // ---------------------------------------------------------------------
  // The reader object
  // ---------------------------------------------------------------------

  lemma IndexMapStep(points: seq<PointRow>, point: PointRow)
    ensures IndexMap(Ids(points + [point]))
            == if point.id in IndexMap(Ids(points)) then IndexMap(Ids(points))
               else IndexMap(Ids(points))[point.id := |points|]
  {
    assert (points + [point])[..|points|] == points;
  }

  lemma OccurrencesStep(tags: seq<Index>, tag: Index)
    ensures forall t :: Occurrences(tags + [tag], t) == Occurrences(tags, t) + (if tag == t then 1 else 0)
  {
    assert (tags + [tag])[..|tags|] == tags;
  }

  /** read_points after p rows: the rows read, the index map and the points set so far. */
  ghost predicate PointsSoFar(rows: seq<seq<string>>, first: nat, p: nat, read: seq<PointRow>,
                              vertices: map<Index, nat>, points: seq<seq<string>>)
  {
    && PointRows(rows, first, p) == Ok(read)
    && vertices == IndexMap(Ids(read))
    && p <= |points| && points[..p] == Coordinates(read)
  }

  lemma PointsAdvance(rows: seq<seq<string>>, first: nat, p: nat, read: seq<PointRow>,
                      vertices: map<Index, nat>, points: seq<seq<string>>, row: PointRow)
    requires PointsSoFar(rows, first, p, read, vertices, points) && p < |points|
    requires PointLine(RowAt(rows, first + p)) == Ok(row)
    ensures PointsSoFar(rows, first, p + 1, read + [row],
                        if row.id in vertices then vertices else vertices[row.id := p],
                        points[p := row.coordinates])
  {
    IndexMapStep(read, row);
    assert (read + [row])[..|read|] == read;
    assert points[p := row.coordinates][..p + 1] == points[..p] + [row.coordinates];
  }

  lemma ElementStep(rows: seq<seq<string>>, first: nat, e: nat, arity: nat, vertices: map<Index, nat>,
                    elements: seq<seq<nat>>, element: seq<nat>)
    requires ElementRows(rows, first, e, arity, vertices) == Ok(elements)
    requires ElementLine(RowAt(rows, first + e), arity, vertices) == Ok(element)
    ensures ElementRows(rows, first, e + 1, arity, vertices) == Ok(elements + [element])
  {
  }

  lemma TagStep(rows: seq<seq<string>>, first: nat, e: nat, tags: seq<Index>, tag: Index)
    requires ElementTags(rows, first, e) == Ok(tags) && CountOf(RowAt(rows, first + e)) == Some(tag)
    ensures ElementTags(rows, first, e + 1) == Ok(tags + [tag])
  {
  }

  lemma PointsSectionIs(rows: seq<seq<string>>, header: nat, n: Index)
    requires CountOf(RowAt(rows, header)) == Some(n)
    ensures PointsSection(rows, header) == PointRows(rows, header + 1, n)
  {
  }

  lemma ElementsSectionIs(rows: seq<seq<string>>, header: nat, arity: nat, vertices: map<Index, nat>, n: Index)
    requires CountOf(RowAt(rows, header)) == Some(n)
    ensures ElementsSection(rows, header, arity, vertices) == ElementRows(rows, header + 1, n, arity, vertices)
  {
  }

  /** A row that fails stops the point read, however many rows follow. */
  lemma {:induction false} PointRowsStop(rows: seq<seq<string>>, first: nat, p: nat, n: nat)
    requires p < n && PointRows(rows, first, p).Ok? && PointLine(RowAt(rows, first + p)).Err?
    ensures PointRows(rows, first, n).Err?
  {
    if n > p + 1 {
      PointRowsStop(rows, first, p, n - 1);
    }
  }

  lemma {:induction false} ElementRowsStop(rows: seq<seq<string>>, first: nat, e: nat, n: nat, arity: nat, vertices: map<Index, nat>)
    requires e < n && ElementRows(rows, first, e, arity, vertices).Ok?
    requires ElementLine(RowAt(rows, first + e), arity, vertices).Err?
    ensures ElementRows(rows, first, n, arity, vertices).Err?
  {
    if n > e + 1 {
      ElementRowsStop(rows, first, e, n - 1, arity, vertices);
    }
  }

  lemma {:induction false} ElementTagsStop(rows: seq<seq<string>>, first: nat, e: nat, n: nat)
    requires e < n && ElementTags(rows, first, e).Ok? && CountOf(RowAt(rows, first + e)).None?
    ensures ElementTags(rows, first, n) == Err(INDEX_ERROR)
  {
    if n > e + 1 {
      ElementTagsStop(rows, first, e, n - 1);
    }
  }

  /** Once the counts and the tags are read, the ratio is the share of the tag among them. */
  lemma LoadableFromTags(rows: seq<seq<string>>, element: Index, header: nat, nbElements: nat, tags: seq<Index>)
    requires CountOf(RowAt(rows, header)).Some? && CountOf(RowAt(rows, header)).value == nbElements
    requires ElementTags(rows, header + 1, nbElements) == Ok(tags)
    ensures LoadableElements(rows, element, header) == Ok(Share(Occurrences(tags, element), nbElements))
  {
  }

  /** The counting map of is_loadable holds the positive counts of the tags read so far. */
  ghost predicate CountsOf(counts: map<Index, nat>, tags: seq<Index>)
  {
    && (forall t | t in counts :: counts[t] == Occurrences(tags, t) && counts[t] > 0)
    && (forall t: Index | t !in counts :: Occurrences(tags, t) == 0)
  }

  /** elements[tag]++ keeps the counting map in step with one more tag read. */
  lemma CountStep(counts: map<Index, nat>, tags: seq<Index>, tag: Index)
    requires CountsOf(counts, tags)
    ensures CountsOf(counts[tag := (if tag in counts then counts[tag] else 0) + 1], tags + [tag])
  {
    OccurrencesStep(tags, tag);
  }

  /** SMESHInputImpl over the lines of a file, for elements of `arity` vertices. */
  class Reader {
    /** The file, as the rows of tokens tokens() yields line after line. */
    const rows: seq<seq<string>>
    /** The element template parameter: both the arity and the tag is_loadable looks for. */
    const arity: Index
    /** The next line std::getline reads. */
    var cursor: nat
    /** vertices_: file index to created vertex. */
    var vertices: map<Index, nat>
    /** The points the builder holds. */
    var points: seq<seq<string>>
    /** The vertices passed to create_element, call after call. */
    var elements: seq<seq<nat>>

    constructor (lines: seq<string>, arity: Index)
      ensures this.rows == Rows(lines) && this.arity == arity
      ensures cursor == 0 && vertices == map[] && points == [] && elements == []
    {
      this.rows, this.arity := Rows(lines), arity;
      cursor, vertices, points, elements := 0, map[], [], [];
    }

    /** tokens(): reads the next line. */
    method NextTokens() returns (tokens: seq<string>)
      modifies this
      ensures tokens == RowAt(rows, old(cursor)) && cursor == old(cursor) + 1
      ensures vertices == old(vertices) && points == old(points) && elements == old(elements)
    {
      tokens := RowAt(rows, cursor);
      cursor := cursor + 1;
    }

    /** std::getline with the line dropped. */
    method SkipLine()
      modifies this
      ensures cursor == old(cursor) + 1
      ensures vertices == old(vertices) && points == old(points) && elements == old(elements)
    {
      cursor := cursor + 1;
    }

    /**
     * read_points: create_vertices(nb_points), then per point row the
     * index map entry (emplace) and set_point.
     */
    method ReadPoints() returns (r: Outcome)
      requires vertices == map[] && points == []
      modifies this
      ensures r.Pass? <==> PointsSection(rows, old(cursor)).Ok?
      ensures r.Pass? ==>
        var read := PointsSection(rows, old(cursor)).value;
        && cursor == old(cursor) + 1 + |read|
        && vertices == IndexMap(Ids(read)) && points == Coordinates(read)
        && elements == old(elements)
    {
      ghost var header := cursor;
      var headerTokens := NextTokens();
      var count := ParseIndex(Front(headerTokens));
      if count.None? {
        return Fail(POINTS_COUNT_ERROR);
      }
      PointsSectionIs(rows, header, count.value);
      r := ReadPointRows(count.value);
    }

    /** create_vertices(n) and the point loop of read_points over the next n rows. */
    method ReadPointRows(n: nat) returns (r: Outcome)
      requires vertices == map[] && points == []
      modifies this
      ensures r.Pass? <==> PointRows(rows, old(cursor), n).Ok?
      ensures r.Pass? ==>
        var read := PointRows(rows, old(cursor), n).value;
        && cursor == old(cursor) + n
        && vertices == IndexMap(Ids(read)) && points == Coordinates(read)
      ensures elements == old(elements)
    {
      var first := cursor;
      points := Origins(n);
      ghost var read: seq<PointRow> := [];
      for p := 0 to n
        invariant cursor == first + p
        invariant |points| == n && PointsSoFar(rows, first, p, read, vertices, points)
        invariant elements == old(elements)
      {
        var values := NextTokens();
        var parsed := ParsePointRow(values);
        if parsed.Err? {
          PointRowsStop(rows, first, p, n);
          return Fail(parsed.message);
        }
        var row := parsed.value;
        PointsAdvance(rows, first, p, read, vertices, points, row);
        SetPoint(row, p);
        read := read + [row];
      }
      assert points == points[..n];
      return Pass;
    }

    /** vertices_.emplace(index, p) and set_point(p, point) for one point row. */
    method SetPoint(row: PointRow, p: nat)
      requires p < |points|
      modifies this
      ensures vertices == if row.id in old(vertices) then old(vertices) else old(vertices)[row.id := p]
      ensures points == old(points)[p := row.coordinates]
      ensures cursor == old(cursor) && elements == old(elements)
    {
      if row.id !in vertices {
        vertices := vertices[row.id := p];
      }
      points := points[p := row.coordinates];
    }

    /** The conversions of one point row in read_points. */
    static method ParsePointRow(values: seq<string>) returns (r: Result<PointRow>)
      ensures r == PointLine(values)
    {
      var id := ParseIndex(Front(values));
      if id.None? {
        return Err(VERTEX_INDEX_ERROR);
      }
      if |values| < 4 {
        return Err(MISSING_COORDINATE);
      }
      return Ok(PointRow(id.value, values[1..4]));
    }

    /** The vertex loop of read_elements over one row. */
    method ResolveRow(values: seq<string>) returns (r: Result<seq<nat>>)
      ensures r == ElementLine(values, arity, vertices)
    {
      if |values| < arity as nat + 1 {
        return Err(MISSING_VERTEX);
      }
      var resolved: seq<nat> := [];
      for d := 0 to arity
        invariant Resolve(values[1..d + 1], vertices) == Ok(resolved)
      {
        assert values[1..d + 2][..d] == values[1..d + 1];
        assert values[1..arity as nat + 1][d] == values[d + 1];
        var index := ParseIndex(values[d + 1]);
        if index.None? || index.value !in vertices {
          ghost var tokens := values[1..arity as nat + 1];
          assert tokens[..d] == values[1..d + 1] && tokens[..d + 1] == values[1..d + 2];
          ResolveStop(tokens, d, vertices);
          if index.None? {
            return Err(EDGE_VERTEX_ERROR);
          }
          return Err(UNKNOWN_VERTEX);
        }
        resolved := resolved + [vertices[index.value]];
      }
      return Ok(resolved);
    }

    /** read_elements: one create_element call per element row, with its resolved vertices. */
    method ReadElements() returns (r: Outcome)
      requires elements == []
      modifies this
      ensures r.Pass? <==> ElementsSection(rows, old(cursor), arity, vertices).Ok?
      ensures r.Pass? ==>
        && elements == ElementsSection(rows, old(cursor), arity, vertices).value
        && cursor == old(cursor) + 1 + |elements|
      ensures vertices == old(vertices) && points == old(points)
    {
      var header := NextTokens();
      var count := ParseIndex(Front(header));
      if count.None? {
        return Fail(EDGES_COUNT_ERROR);
      }
      ElementsSectionIs(rows, old(cursor), arity, vertices, count.value);
      r := ReadElementRows(count.value);
    }

    /** The element loop of read_elements over the next n rows. */
    method ReadElementRows(n: nat) returns (r: Outcome)
      requires elements == []
      modifies this
      ensures r.Pass? <==> ElementRows(rows, old(cursor), n, arity, vertices).Ok?
      ensures r.Pass? ==> elements == ElementRows(rows, old(cursor), n, arity, vertices).value && cursor == old(cursor) + n
      ensures vertices == old(vertices) && points == old(points)
    {
      var first := cursor;
      for e := 0 to n
        invariant cursor == first + e
        invariant ElementRows(rows, first, e, arity, vertices) == Ok(elements)
        invariant vertices == old(vertices) && points == old(points)
      {
        var failed := ReadElementRow(first, e, n);
        if failed.Some? {
          return Fail(failed.value);
        }
      }
      return Pass;
    }

    /** One row of the element loop: create_element with its resolved vertices, or the error that stops the loop. */
    method ReadElementRow(ghost first: nat, ghost e: nat, ghost n: nat) returns (failed: Option<string>)
      requires e < n && cursor == first + e
      requires ElementRows(rows, first, e, arity, vertices) == Ok(elements)
      modifies this
      ensures cursor == first + e + 1 && vertices == old(vertices) && points == old(points)
      ensures failed.None? ==> ElementRows(rows, first, e + 1, arity, vertices) == Ok(elements)
      ensures failed.Some? ==> ElementRows(rows, first, n, arity, vertices).Err?
    {
      var values := NextTokens();
      var element := ResolveRow(values);
      if element.Err? {
        ElementRowsStop(rows, first, e, n, arity, vertices);
        return Some(element.message);
      }
      ElementStep(rows, first, e, arity, vertices, elements, element.value);
      elements := elements + [element.value];
      return None;
    }

    /** read_file: the points, then the elements. */
    method ReadFile() returns (r: Outcome)
      requires cursor == 0 && vertices == map[] && points == [] && elements == []
      modifies this
      ensures r.Pass? <==> ReadSmesh(rows, arity).Ok?
      ensures r.Pass? ==>
        points == ReadSmesh(rows, arity).value.points && elements == ReadSmesh(rows, arity).value.elements
    {
      r := ReadPoints();
      if r.Fail? {
        return;
      }
      r := ReadElements();
    }

    /** The counting loop of is_loadable over the next n rows: elements[tag]++ per row. */
    method CountTags(n: nat) returns (counted: bool, counts: map<Index, nat>, ghost tags: seq<Index>)
      modifies this
      ensures counted <==> ElementTags(rows, old(cursor), n).Ok?
      ensures counted ==> ElementTags(rows, old(cursor), n) == Ok(tags) && CountsOf(counts, tags)
      ensures !counted ==> ElementTags(rows, old(cursor), n) == Err(INDEX_ERROR)
      ensures vertices == old(vertices) && points == old(points) && elements == old(elements)
    {
      counts, tags := map[], [];
      var first := cursor;
      for e := 0 to n
        invariant cursor == first + e
        invariant ElementTags(rows, first, e) == Ok(tags)
        invariant CountsOf(counts, tags)
        invariant vertices == old(vertices) && points == old(points) && elements == old(elements)
      {
        var values := NextTokens();
        var tag := ParseIndex(Front(values));
        if tag.None? {
          ElementTagsStop(rows, first, e, n);
          return false, counts, tags;
        }
        TagStep(rows, first, e, tags, tag.value);
        CountStep(counts, tags, tag.value);
        counts := counts[tag.value := (if tag.value in counts then counts[tag.value] else 0) + 1];
        tags := tags + [tag.value];
      }
      return true, counts, tags;
    }

    /**
     * is_loadable: skip the point rows, count each element row's tag in a
     * map, and return the share of the `element` tag.
     */
    method IsLoadable() returns (r: Result<real>)
      requires cursor == 0
      modifies this
      ensures r == LoadableRatio(rows, arity)
    {
      var header := NextTokens();
      var count := ParseIndex(Front(header));
      if count.None? {
        return Err(INDEX_ERROR);
      }
      var nbPoints: nat := count.value;
      for p := 0 to nbPoints
        invariant cursor == 1 + p
      {
        SkipLine();
      }
      r := LoadableTail();
    }

    /** is_loadable from the elements count row on. */
    method LoadableTail() returns (r: Result<real>)
      modifies this
      ensures r == LoadableElements(rows, arity, old(cursor))
    {
      ghost var header := cursor;
      var elementsHeader := NextTokens();
      var elementsCount := ParseIndex(Front(elementsHeader));
      if elementsCount.None? {
        return Err(INDEX_ERROR);
      }
      var nbElements: nat := elementsCount.value;
      var counted, counts, tags := CountTags(nbElements);
      if !counted {
        return Err(INDEX_ERROR);
      }
      LoadableFromTags(rows, arity, header, nbElements, tags);
      if arity !in counts {
        return Ok(0.0);
      }
      return Ok(counts[arity] as real / nbElements as real);
    }
  }

  // ---------------------------------------------------------------------
  // SMESHCurveInput
  // ---------------------------------------------------------------------

  datatype EdgedCurve = EdgedCurve(points: seq<seq<string>>, edges: seq<(nat, nat)>)

  /**
   * SMESHCurveInput::read: a reader of two-vertex elements whose
   * create_element creates the edge (vertices[0], vertices[1]) on an
   * initially empty curve.
   */
  function ReadCurve(rows: seq<seq<string>>): (r: Result<EdgedCurve>)
    ensures r.Ok? <==> ReadSmesh(rows, 2).Ok?
    ensures r.Ok? ==>
      && r.value.points == ReadSmesh(rows, 2).value.points
      && |r.value.edges| == |ReadSmesh(rows, 2).value.elements|
      && forall e | 0 <= e < |r.value.edges| ::
        [r.value.edges[e].0, r.value.edges[e].1] == ReadSmesh(rows, 2).value.elements[e]
  {
    match ReadSmesh(rows, 2)
    case Err(e) => Err(e)
    case Ok(mesh) =>
      ReadSmeshValid(rows, 2);
      var edges := seq(|mesh.elements|, e requires 0 <= e < |mesh.elements| => (mesh.elements[e][0], mesh.elements[e][1]));
      assert forall e | 0 <= e < |edges| :: [edges[e].0, edges[e].1] == mesh.elements[e];
      Ok(EdgedCurve(mesh.points, edges))
  }

  /**
   * A curve read creates exactly one edge per element row, as many as the
   * element count row announces, each between two created vertices.
   */
  lemma CurveEdgesValid(rows: seq<seq<string>>)
    requires ReadCurve(rows).Ok?
    ensures var curve := ReadCurve(rows).value;
      && CountOf(RowAt(rows, 1 + |curve.points|)).Some?
      && CountOf(RowAt(rows, 1 + |curve.points|)).value == |curve.edges|
      && forall e | 0 <= e < |curve.edges| :: curve.edges[e].0 < |curve.points| && curve.edges[e].1 < |curve.points|
  {
    ReadSmeshValid(rows, 2);
    var curve := ReadCurve(rows).value;
    var mesh := ReadSmesh(rows, 2).value;
    forall e | 0 <= e < |curve.edges|
      ensures curve.edges[e].0 < |curve.points| && curve.edges[e].1 < |curve.points|
    {
      assert [curve.edges[e].0, curve.edges[e].1] == mesh.elements[e];
      assert mesh.elements[e][0] < |mesh.points| && mesh.elements[e][1] < |mesh.points|;
    }
  }
}
