/**
 * The older MSH reader of the geo-representation library: ascii version 2
 * files only, with point, edge and triangle elements. It reads the
 * header, the node section and the element section, adding every element
 * as soon as it is read, then filters the duplicated vertices of every
 * line and surface, places the points and infers the topology.
 *
 * Every field of a line is read with `iss >> s` into a string variable
 * and converted with `std::stoi`. An extraction past the end of the line
 * fails and leaves the variable as it was, so a missing field repeats the
 * last token read.
 */
module MshLegacy {
  import opened Wrappers
  import opened Text
  import opened Streams
  import opened BRepModel
  import opened MshCommon
  import opened MshLines
  import opened MshDuplicates
  import opened MshTopology
  import opened MshInput

  // ---------------------------------------------------------------------
  // Messages of the exceptions thrown
  // ---------------------------------------------------------------------

  /** `read_node_section` without a "$Nodes" line after the header. */
  const NO_NODE_SECTION := "Cannot find the section $Nodes"
  /** `read_element_section` without an "$Elements" line after the nodes. */
  const NO_ELEMENT_SECTION := "Cannot find the section $Elements"
  /** A first line that is not "$MeshFormat". */
  const NO_MESH_FORMAT := "Line should starts with \"$MeshFormat\""
  /** A third line that is not "$EndMeshFormat". */
  const NO_END_MESH_FORMAT := "Line should starts with \"$EndMeshFormat\""
  /** A node section that does not end with "$EndNodes". */
  const NO_END_NODES := "Line should starts with \"$EndNodes\""
  /** An element section that does not end with "$EndElements". */
  const NO_END_ELEMENTS := "Line should starts with \"$EndElements\""
  /** A version other than 2. */
  const UNSUPPORTED_VERSION := "Only MSH file format version 2 is supported for now."
  /** A binary file. */
  const BINARY_FORMAT := "Binary format is not supported for now."
  /** A node line whose number is not the next one. */
  const NODES_NOT_CONTINUOUS := "Node indices should be continuous."
  /** An element line whose number is not the next one. */
  const ELEMENTS_NOT_CONTINUOUS := "Element indices should be continuous."
  /** An element line with fewer than two tags. */
  const TOO_FEW_TAGS := "Number of tags for an element should be at least 2."
  /** An element type the factory does not know. */
  const UNREGISTERED_TYPE := "Unregistered GMSH element type"
  /** An element whose elementary tag is 0. */
  const NULL_ELEMENTARY := "GMSH tag for elementary entity (second tag) should not be null"
  /** An element that uses a node beyond those read. */
  const NODE_BEYOND := "A node id is beyond the nodes of the file"
  /** A second point with the same elementary tag, refused by `add_element`. */
  const REPEATED_POINT := "At least two points (type=15) has the same tag for elementary entity. This is not supported."

  // ---------------------------------------------------------------------
  // Extractions into one string variable
  // ---------------------------------------------------------------------

  /**
   * The text a string variable, "" at first, holds after extraction
   * number `k` (from 0) of a run that starts at token `from` of a line
   * whose tokens are `ts`: token `from + k` while there is one, then the
   * last token of the line, or "" when the run read no token at all.
   */
  function Word(ts: seq<string>, from: nat, k: nat): string
  {
    if from + k < |ts| then ts[from + k]
    else if from < |ts| then ts[|ts| - 1]
    else ""
  }

  /** `iss >> s` for a string `s` holding `prev`: what `s` then holds, and the stream. */
  function ExtractWord(s: Stream, prev: string): (string, Stream)
  {
    if HasToken(s) then (s.tokens[s.pos], s.(pos := s.pos + 1)) else (prev, s.(good := false))
  }

  /**
   * The stream `s` and the variable `w` after `k` extractions of a run that
   * started at token `from` of the line `ts`, on a stream that was good
   * then exactly when `from` was not past the end of the line.
   */
  predicate AtWord(ts: seq<string>, from: nat, s: Stream, w: string, k: nat)
  {
    && s.tokens == ts
    && s.pos == (if from + k < |ts| then from + k else |ts|)
    && (s.good <==> from + k <= |ts|)
    && w == (if k == 0 then "" else Word(ts, from, k - 1))
  }

  /** One more extraction reads `Word(ts, from, k)`. */
  lemma ExtractWordStep(ts: seq<string>, from: nat, s: Stream, w: string, k: nat)
    requires AtWord(ts, from, s, w, k)
    ensures ExtractWord(s, w).0 == Word(ts, from, k)
    ensures AtWord(ts, from, ExtractWord(s, w).1, ExtractWord(s, w).0, k + 1)
  {
  }

  /**
   * `std::stoi` restricted to whole tokens: an optional '-' then decimal
   * digits whose value fits an `int`. A leading '+' or a number followed
   * by other characters ("0.0") is refused here, where `std::stoi` reads
   * the leading number.
   */
  function StoiText(t: string): (r: Result<int>)
    ensures r.Ok? ==> SIGNED_MIN <= r.value <= SIGNED_MAX && ParseInt(t) == Some(r.value)
  {
    match ParseInt(t)
    case None => Err(NO_CONVERSION)
    case Some(i) => if SIGNED_MIN <= i <= SIGNED_MAX then Ok(i) else Err(OUT_OF_RANGE)
  }

  /** `static_cast<index_t>` of an `int`: the value modulo 2^32. */
  function ToIndex(i: int): (r: Index)
    ensures 0 <= i < INDEX_LIMIT ==> r == i
  {
    i % INDEX_LIMIT
  }

  // ---------------------------------------------------------------------
  // Header
  // ---------------------------------------------------------------------

  /**
   * `check_msh_version`: the first token read as a double must have floor
   * 2; the next extraction (the first token again on a line that has only
   * one) must convert with `stoi` to 0, the ascii flag.
   */
  function LegacyVersion(line: string): Outcome
  {
    var ts := Split(line);
    match VersionFloor(Word(ts, 0, 0))
    case None => Fail(UNSUPPORTED_VERSION)
    case Some(v) =>
      if v != 2 then Fail(UNSUPPORTED_VERSION)
      else
        match StoiText(Word(ts, 0, 1))
        case Err(m) => Fail(m)
        case Ok(binary) => if binary != 0 then Fail(BINARY_FORMAT) else Pass
  }

  /** A token whose floor as a version is 2 never converts with `stoi` to 0. */
  lemma VersionTokenNotAscii(t: string)
    requires VersionFloor(t) == Some(2)
    ensures StoiText(t) != Ok(0)
  {
    if StoiText(t).Ok? {
      assert IsDigit(t[0]);
      assert ParseNat(t).Some?;
      var n := LeadingDigits(t);
      assert n == |t|;
      assert t[..n] == t;
    }
  }

  /**
   * The version line is accepted iff it has at least two tokens, the first
   * a version whose floor is 2 and the second a number equal to 0: a line
   * holding only the version is rejected.
   */
  lemma LegacyVersionAccepted(line: string)
    ensures var ts := Split(line);
      LegacyVersion(line).Pass? <==>
        |ts| >= 2 && VersionFloor(ts[0]) == Some(2) && StoiText(ts[1]) == Ok(0)
  {
    var ts := Split(line);
    if |ts| == 1 && VersionFloor(ts[0]) == Some(2) {
      VersionTokenNotAscii(ts[0]);
    }
  }

  /** `read_header`: "$MeshFormat", the version line, "$EndMeshFormat". */
  function LegacyHeader(lines: seq<string>): Outcome
  {
    if !StartsWith(LineAt(lines, 0), MESH_FORMAT) then Fail(NO_MESH_FORMAT)
    else
      match LegacyVersion(LineAt(lines, 1))
      case Fail(m) => Fail(m)
      case Pass =>
        if StartsWith(LineAt(lines, 2), END_MESH_FORMAT) then Pass
        else Fail(NO_END_MESH_FORMAT)
  }

  /**
   * Every header the older reader accepts, the newer one accepts too, as
   * version 2.
   */
  lemma LegacyHeaderNewer(lines: seq<string>)
    ensures LegacyHeader(lines).Pass? ==> Header(lines) == Ok(2)
  {
    if LegacyHeader(lines).Pass? {
      var line := LineAt(lines, 1);
      var ts := Split(line);
      LegacyVersionAccepted(line);
      assert ParseInt(ts[1]) == Some(0);
      var s := OfLine(line).(pos := 1);
      assert ExtractIndex(s, 0).0 == 0 by {
        if ParseNat(ts[1]).Some? {
          assert ParseNat(ts[1]) == Some(0);
        }
      }
      assert MshVersion(line) == Ok(2);
    }
  }

  // ---------------------------------------------------------------------
  // Nodes
  // ---------------------------------------------------------------------

  /** Whether the first field of a line converts with `stoi` to `k` as an `index_t`. */
  predicate Numbered(line: string, k: nat)
  {
    var id := StoiText(Word(Split(line), 0, 0));
    id.Ok? && ToIndex(id.value) == k
  }

  /**
   * `read_node`: the node number must be the expected one; the three
   * coordinates are the next three extractions, kept as text.
   */
  function LegacyNodeLine(expected: nat, line: string): (r: Result<Coords>)
  {
    var ts := Split(line);
    match StoiText(Word(ts, 0, 0))
    case Err(m) => Err(m)
    case Ok(id) =>
      if ToIndex(id) != expected then Err(NODES_NOT_CONTINUOUS)
      else Ok(Coords(Word(ts, 0, 1), Word(ts, 0, 2), Word(ts, 0, 3)))
  }

  /**
   * A node line reads iff it carries the expected number; the coordinates
   * are then its next three tokens, a missing one repeating the last token
   * of the line.
   */
  lemma LegacyNodeLineReads(expected: nat, line: string)
    ensures LegacyNodeLine(expected, line).Ok? <==> Numbered(line, expected)
    ensures var ts := Split(line); LegacyNodeLine(expected, line).Ok? && |ts| >= 4 ==>
      LegacyNodeLine(expected, line).value == Coords(ts[1], ts[2], ts[3])
    ensures var ts := Split(line); LegacyNodeLine(expected, line).Ok? && |ts| < 4 ==>
      LegacyNodeLine(expected, line).value.z == ts[|ts| - 1]
  {
  }

  /** `read_node`, with its loop over the three coordinates. */
  method ReadNode(expected: nat, line: string) returns (r: Result<Coords>)
    ensures r == LegacyNodeLine(expected, line)
  {
    ghost var ts := Split(line);
    var s := OfLine(line);
    var info := "";
    var x := ExtractWord(s, info);
    ExtractWordStep(ts, 0, s, info, 0);
    info, s := x.0, x.1;
    var id := StoiText(info);
    if id.Err? {
      return Err(id.message);
    }
    if ToIndex(id.value) != expected {
      return Err(NODES_NOT_CONTINUOUS);
    }
    var cs: seq<string> := [];
    var c := 0;
    while c < 3
      invariant c <= 3 && |cs| == c
      invariant AtWord(ts, 0, s, info, c + 1)
      invariant forall j | 0 <= j < c :: cs[j] == Word(ts, 0, j + 1)
    {
      x := ExtractWord(s, info);
      ExtractWordStep(ts, 0, s, info, c + 1);
      info, s := x.0, x.1;
      cs := cs + [info];
      c := c + 1;
    }
    r := Ok(Coords(cs[0], cs[1], cs[2]));
  }

  /**
   * The count line of a section whose opening line was found at `h`:
   * `missing` when it was not found, else the count as `std::stoi` reads
   * it.
   */
  function SectionCount(lines: seq<string>, h: Option<nat>, missing: string): (r: Result<nat>)
    ensures r.Ok? ==> h.Some? && Stoi(LineAt(lines, h.value + 1)) == r
    ensures h.None? ==> r == Err(missing)
  {
    match h
    case None => Err(missing)
    case Some(h) => Stoi(LineAt(lines, h + 1))
  }

  /** The `nb` node lines of a section from line `start`, numbered from 1, then "$EndNodes"; the nodes and the line after. */
  function LegacyNodeRun(lines: seq<string>, start: nat, nb: nat): Result<(seq<Coords>, nat)>
  {
    NodesEnd(lines, start + nb, ReadLines(LegacyNodeLine, lines, start, nb))
  }

  /** After the node lines, whose reading gave `run`: "$EndNodes" on line `end`. */
  function NodesEnd(lines: seq<string>, end: nat, run: Result<seq<Coords>>): (r: Result<(seq<Coords>, nat)>)
    ensures r.Ok? <==> run.Ok? && StartsWith(LineAt(lines, end), END_NODES)
    ensures r.Ok? ==> run == Ok(r.value.0) && r.value.1 == end + 1
  {
    if run.Err? then Err(run.message)
    else if StartsWith(LineAt(lines, end), END_NODES) then Ok((run.value, end + 1))
    else Err(NO_END_NODES)
  }

  /**
   * `read_node_section` from line `cursor`: the "$Nodes" line, the count,
   * the node lines, then "$EndNodes"; the nodes and the line after the
   * section.
   */
  function LegacyNodeSection(lines: seq<string>, cursor: nat): Result<(seq<Coords>, nat)>
  {
    var h := FindLine(lines, cursor, NODES);
    match SectionCount(lines, h, NO_NODE_SECTION)
    case Err(m) => Err(m)
    case Ok(nb) => LegacyNodeRun(lines, h.value + 2, nb)
  }

  /**
   * A node section that reads was found at or after `cursor`, its count
   * line gives the number of nodes, and the section ends with the line
   * after the last node.
   */
  lemma LegacyNodeSectionShape(lines: seq<string>, cursor: nat)
    ensures var r := LegacyNodeSection(lines, cursor); var h := FindLine(lines, cursor, NODES);
      r.Ok? ==> (
        && h.Some? && cursor <= h.value
        && Stoi(LineAt(lines, h.value + 1)) == Ok(|r.value.0|) && r.value.1 == h.value + 3 + |r.value.0|)
  {
    var h := FindLine(lines, cursor, NODES);
    var c := SectionCount(lines, h, NO_NODE_SECTION);
    if c.Ok? {
      var start := h.value + 2;
      assert LegacyNodeRun(lines, start, c.value) == NodesEnd(lines, start + c.value, ReadLines(LegacyNodeLine, lines, start, c.value));
    }
  }

  /**
   * The node lines read iff they are numbered 1, 2, ..., nb, and the k-th
   * node is what line `start + k` reads as.
   */
  lemma LegacyNodesContinuous(lines: seq<string>, start: nat, nb: nat)
    ensures ReadLines(LegacyNodeLine, lines, start, nb).Ok? <==>
      forall i | start <= i < start + nb :: Numbered(LineAt(lines, i), i - start + 1)
  {
    ReadLinesAll(LegacyNodeLine, lines, start, nb);
    forall i | start <= i < start + nb
      ensures LegacyNodeLine(i - start + 1, LineAt(lines, i)).Ok? <==> Numbered(LineAt(lines, i), i - start + 1)
    {
      LegacyNodeLineReads(i - start + 1, LineAt(lines, i));
    }
  }

  /** Once a line of a run fails, the longer runs fail with the same message. */
  lemma {:induction false} ReadLinesErrStays<T>(read: (nat, string) -> Result<T>, lines: seq<string>, start: nat, k: nat, nb: nat, m: string)
    requires k <= nb && ReadLines(read, lines, start, k) == Err(m)
    ensures ReadLines(read, lines, start, nb) == Err(m)
    decreases nb - k
  {
    if k < nb {
      ReadLinesErrStays(read, lines, start, k + 1, nb, m);
    }
  }

  /** The loop of `read_node_section`: `nb` node lines from line `start`, each read by `read_node`. */
  method ReadNodeLines(lines: seq<string>, start: nat, nb: nat) returns (r: Result<seq<Coords>>)
    ensures r == ReadLines(LegacyNodeLine, lines, start, nb)
  {
    var got: seq<Coords> := [];
    var n := 0;
    while n < nb
      invariant n <= nb
      invariant ReadLines(LegacyNodeLine, lines, start, n) == Ok(got)
    {
      var p := ReadNode(n + 1, LineAt(lines, start + n));
      if p.Err? {
        ReadLinesErrStays(LegacyNodeLine, lines, start, n + 1, nb, p.message);
        return Err(p.message);
      }
      got := got + [p.value];
      n := n + 1;
    }
    r := Ok(got);
  }

  // ---------------------------------------------------------------------
  // Elements
  // ---------------------------------------------------------------------

  /** The element codes `initialiaze_gmsh_factory` registers: 15 point, 1 edge, 2 triangle. */
  function LegacyKind(code: Index): Option<ElementKind>
  {
    if code == 15 then Some(Point)
    else if code == 1 then Some(Edge)
    else if code == 2 then Some(Triangle)
    else None
  }

  /**
   * Only the codes 15, 1 and 2 are registered, and each means what it
   * means in the newer readers' table.
   */
  lemma LegacyCodes(code: Index)
    ensures LegacyKind(code).Some? <==> code == 15 || code == 1 || code == 2
    ensures LegacyKind(code).Some? ==>
      ElementOfCode(code) == LegacyKind(code) && CodeOf(LegacyKind(code).value) == code
  {
  }

  /** The kinds of element the older reader builds. */
  predicate LegacyElementKind(k: ElementKind)
  {
    k == Point || k == Edge || k == Triangle
  }

  /**
   * The position of the first of `nb` node-id extractions from token
   * `from` whose text does not convert, or `nb`.
   */
  function FirstBad(ts: seq<string>, from: nat, nb: nat): (f: nat)
    ensures f <= nb
    ensures forall k | 0 <= k < f :: StoiText(Word(ts, from, k)).Ok?
    ensures f < nb ==> StoiText(Word(ts, from, f)).Err?
  {
    if nb == 0 then 0
    else
      var f := FirstBad(ts, from, nb - 1);
      if f < nb - 1 then f
      else if StoiText(Word(ts, from, nb - 1)).Ok? then nb
      else nb - 1
  }

  /** When the first `n` extractions convert and the next does not (or `n` is `nb`), `n` is `FirstBad`. */
  lemma {:induction false} FirstBadAt(ts: seq<string>, from: nat, nb: nat, n: nat)
    requires n <= nb
    requires forall k | 0 <= k < n :: StoiText(Word(ts, from, k)).Ok?
    requires n < nb ==> StoiText(Word(ts, from, n)).Err?
    ensures FirstBad(ts, from, nb) == n
    decreases nb
  {
    if nb > 0 {
      if n < nb - 1 {
        FirstBadAt(ts, from, nb - 1, n);
      } else {
        FirstBadAt(ts, from, nb - 1, nb - 1);
      }
    }
  }

  /**
   * `read_vertex_ids` inside the constructor's try block: the ids vector
   * is resized to `nb` zeros, then id `k` is the `stoi` of the text a
   * fresh string holds after extraction `k` from token `from`; the first
   * that does not convert throws, the exception is caught and logged, and
   * that id and the later ones stay 0.
   */
  function LegacyIds(ts: seq<string>, from: nat, nb: nat): (r: seq<Index>)
    ensures |r| == nb
  {
    var f := FirstBad(ts, from, nb);
    seq(nb, k requires 0 <= k < nb => if k < f then ToIndex(StoiText(Word(ts, from, k)).value) else 0)
  }

  /** With all `nb` tokens present and converting, id `k` is token `from + k`. */
  lemma LegacyIdsOfTokens(ts: seq<string>, from: nat, nb: nat)
    requires from + nb <= |ts|
    requires forall k | from <= k < from + nb :: StoiText(ts[k]).Ok?
    ensures forall k | 0 <= k < nb :: LegacyIds(ts, from, nb)[k] == ToIndex(StoiText(ts[from + k]).value)
  {
    assert forall k | 0 <= k < nb :: Word(ts, from, k) == ts[from + k];
    FirstBadAt(ts, from, nb, nb);
  }

  /**
   * A line that ends early, after tokens that all convert, repeats its
   * last token for every missing id.
   */
  lemma LegacyIdsRepeatLast(ts: seq<string>, from: nat, nb: nat, k: nat)
    requires from < |ts| <= from + k && k < nb
    requires forall j | from <= j < |ts| :: StoiText(ts[j]).Ok?
    ensures |ts| - from - 1 < k
    ensures LegacyIds(ts, from, nb)[k] == LegacyIds(ts, from, nb)[|ts| - from - 1]
    ensures LegacyIds(ts, from, nb)[k] == ToIndex(StoiText(ts[|ts| - 1]).value)
  {
    forall j | 0 <= j < nb
      ensures StoiText(Word(ts, from, j)).Ok?
    {
      if from + j >= |ts| {
        assert Word(ts, from, j) == ts[|ts| - 1];
      }
    }
    FirstBadAt(ts, from, nb, nb);
  }

  /** A line with no token left for the ids gives only zeros. */
  lemma LegacyIdsWithoutTokens(ts: seq<string>, from: nat, nb: nat)
    requires from >= |ts|
    ensures forall k | 0 <= k < nb :: LegacyIds(ts, from, nb)[k] == 0
  {
    if nb > 0 {
      assert Word(ts, from, 0) == "";
      assert StoiText("").Err?;
      FirstBadAt(ts, from, nb, 0);
    }
  }

  /** From the first id whose text does not convert on, every id is 0. */
  lemma LegacyIdsAfterBad(ts: seq<string>, from: nat, nb: nat, k: nat)
    requires k < nb && StoiText(Word(ts, from, k)).Err?
    ensures forall j | k <= j < nb :: LegacyIds(ts, from, nb)[j] == 0
  {
    assert FirstBad(ts, from, nb) <= k;
  }

  /** `read_vertex_ids`, on a stream whose run of extractions starts at token `from`. */
  method ReadLegacyIds(s: Stream, ghost from: nat, nb: nat) returns (ids: seq<Index>)
    requires AtWord(s.tokens, from, s, "", 0)
    ensures ids == LegacyIds(s.tokens, from, nb)
  {
    ghost var ts := s.tokens;
    ids := seq(nb, _ => 0);
    var info := "";
    var cur := s;
    var n := 0;
    while n < nb
      invariant n <= nb && |ids| == nb
      invariant AtWord(ts, from, cur, info, n)
      invariant forall k | 0 <= k < n :: StoiText(Word(ts, from, k)).Ok? && ids[k] == ToIndex(StoiText(Word(ts, from, k)).value)
      invariant forall k | n <= k < nb :: ids[k] == 0
    {
      var x := ExtractWord(cur, info);
      ExtractWordStep(ts, from, cur, info, n);
      info, cur := x.0, x.1;
      var v := StoiText(info);
      if v.Err? {
        break;
      }
      ids := ids[n := ToIndex(v.value)];
      n := n + 1;
    }
    FirstBadAt(ts, from, nb, n);
  }

  /**
   * `GMSHElementFactory::create` and the constructor of the registered
   * class: an unregistered code or an elementary tag of 0 throws;
   * otherwise the node ids are read from token `from` on.
   */
  function LegacyElement(code: Index, physical: Index, elementary: Index, ts: seq<string>, from: nat): Result<GmshElement>
  {
    match LegacyKind(code)
    case None => Err(UNREGISTERED_TYPE)
    case Some(k) =>
      if elementary == 0 then Err(NULL_ELEMENTARY)
      else Ok(GmshElement(k, physical, elementary, LegacyIds(ts, from, Arity(k))))
  }

  /**
   * `read_element`: "number type nb_tags physical elementary other_tags...
   * node_ids...". The number must be the expected one.
   */
  function LegacyElementLine(expected: nat, line: string): Result<GmshElement>
  {
    var ts := Split(line);
    match StoiText(Word(ts, 0, 0))
    case Err(m) => Err(m)
    case Ok(id) =>
      if ToIndex(id) != expected then Err(ELEMENTS_NOT_CONTINUOUS)
      else ElementType(ts)
  }

  /** The type and the number of tags, which must be at least 2. */
  function ElementType(ts: seq<string>): Result<GmshElement>
  {
    match StoiText(Word(ts, 0, 1))
    case Err(m) => Err(m)
    case Ok(code) =>
      match StoiText(Word(ts, 0, 2))
      case Err(m) => Err(m)
      case Ok(nbTags) =>
        if nbTags < 2 then Err(TOO_FEW_TAGS)
        else ElementTags(ts, ToIndex(code), nbTags)
  }

  /** The physical and elementary tags; the other tags are skipped. */
  function ElementTags(ts: seq<string>, code: Index, nbTags: int): Result<GmshElement>
    requires nbTags >= 2
  {
    match StoiText(Word(ts, 0, 3))
    case Err(m) => Err(m)
    case Ok(physical) =>
      match StoiText(Word(ts, 0, 4))
      case Err(m) => Err(m)
      case Ok(elementary) => LegacyElement(code, ToIndex(physical), ToIndex(elementary), ts, 3 + nbTags)
  }

  /** Whether field `k` of a line converts with `stoi`. */
  predicate Converts(ts: seq<string>, k: nat)
  {
    StoiText(Word(ts, 0, k)).Ok?
  }

  /** The `stoi` value of field `k` of a line, as an `index_t`, or 0 when it does not convert. */
  function Field(ts: seq<string>, k: nat): Index
  {
    var v := StoiText(Word(ts, 0, k));
    if v.Ok? then ToIndex(v.value) else 0
  }

  /**
   * An element line reads iff its five leading fields convert, its
   * number is the expected one, it has at least 2 tags, its type is 15, 1
   * or 2 and its elementary tag is not 0. The element then has that kind,
   * those tags, and as many node ids as its kind has nodes.
   */
  lemma LegacyElementLineFields(expected: nat, line: string)
    ensures var ts := Split(line); var r := LegacyElementLine(expected, line);
      r.Ok? <==> (
        && Converts(ts, 0) && Converts(ts, 1) && Converts(ts, 2) && Converts(ts, 3) && Converts(ts, 4)
        && Field(ts, 0) == expected
        && StoiText(Word(ts, 0, 2)).value >= 2
        && LegacyKind(Field(ts, 1)).Some?
        && Field(ts, 4) != 0)
    ensures var ts := Split(line); var r := LegacyElementLine(expected, line);
      r.Ok? ==> (
        && r.value.kind == LegacyKind(Field(ts, 1)).value
        && r.value.physical == Field(ts, 3) && r.value.elementary == Field(ts, 4)
        && Shaped(r.value) && LegacyElementKind(r.value.kind))
  {
  }

  /** `read_element` with the element constructor, extraction by extraction. */
  method ReadElement(expected: nat, line: string) returns (r: Result<GmshElement>)
    ensures r == LegacyElementLine(expected, line)
  {
    ghost var ts := Split(line);
    var s := OfLine(line);
    var x := ExtractWord(s, "");
    ExtractWordStep(ts, 0, s, "", 0);
    var id := StoiText(x.0);
    if id.Err? {
      return Err(id.message);
    }
    if ToIndex(id.value) != expected {
      return Err(ELEMENTS_NOT_CONTINUOUS);
    }
    r := ReadElementType(x.1, x.0);
  }

  /** The type and number of tags of an element line whose number was read. */
  method ReadElementType(s: Stream, info: string) returns (r: Result<GmshElement>)
    requires AtWord(s.tokens, 0, s, info, 1)
    ensures r == ElementType(s.tokens)
  {
    ghost var ts := s.tokens;
    var x := ExtractWord(s, info);
    ExtractWordStep(ts, 0, s, info, 1);
    var code := StoiText(x.0);
    if code.Err? {
      return Err(code.message);
    }
    var y := ExtractWord(x.1, x.0);
    ExtractWordStep(ts, 0, x.1, x.0, 2);
    var nbTags := StoiText(y.0);
    if nbTags.Err? {
      return Err(nbTags.message);
    }
    if nbTags.value < 2 {
      return Err(TOO_FEW_TAGS);
    }
    r := ReadElementTags(y.1, y.0, ToIndex(code.value), nbTags.value);
  }

  /** The tags of an element line, then the element built by the factory. */
  method ReadElementTags(s: Stream, info: string, code: Index, nbTags: int) returns (r: Result<GmshElement>)
    requires AtWord(s.tokens, 0, s, info, 3) && nbTags >= 2
    ensures r == ElementTags(s.tokens, code, nbTags)
  {
    ghost var ts := s.tokens;
    var x := ExtractWord(s, info);
    ExtractWordStep(ts, 0, s, info, 3);
    var physical := StoiText(x.0);
    if physical.Err? {
      return Err(physical.message);
    }
    var y := ExtractWord(x.1, x.0);
    ExtractWordStep(ts, 0, x.1, x.0, 4);
    var elementary := StoiText(y.0);
    if elementary.Err? {
      return Err(elementary.message);
    }
    var cur, text := y.1, y.0;
    var t := 2;
    while t < nbTags
      invariant 2 <= t <= nbTags
      invariant AtWord(ts, 0, cur, text, 3 + t)
    {
      var z := ExtractWord(cur, text);
      ExtractWordStep(ts, 0, cur, text, 3 + t);
      cur, text := z.1, z.0;
      t := t + 1;
    }
    var kind := LegacyKind(code);
    if kind.None? {
      return Err(UNREGISTERED_TYPE);
    }
    if ToIndex(elementary.value) == 0 {
      return Err(NULL_ELEMENTARY);
    }
    var ids := ReadLegacyIds(cur, 3 + nbTags, Arity(kind.value));
    r := Ok(GmshElement(kind.value, ToIndex(physical.value), ToIndex(elementary.value), ids));
  }

  // ---------------------------------------------------------------------
  // add_element
  // ---------------------------------------------------------------------

  /**
   * What reading keeps true of the model: it is consistent with the map,
   * has no block and no relation, and every corner has exactly one vertex
   * and no cell.
   */
  predicate LegacyConsistent(b: BRep, idMap: IdMap)
  {
    && Consistent(b, idMap)
    && b.blocks == [] && b.boundaries == {}
    && (forall i | 0 <= i < |b.corners| :: |b.corners[i].uniqueOf| == 1 && b.corners[i].cells == [])
  }

  /**
   * `add_element` of the older element classes: a point whose (corner,
   * elementary tag) key is already in the map throws; any other element
   * is added as the shared `add_element` adds it.
   */
  function LegacyAddElement(b: BRep, idMap: IdMap, e: GmshElement): (r: Result<(BRep, IdMap)>)
    requires IdMapValid(b, idMap)
    ensures r.Ok? ==> IdMapValid(r.value.0, r.value.1)
  {
    if e.kind == Point && GmshElementID(Corner, e.elementary) in idMap then
      Err(REPEATED_POINT)
    else Ok(WithElement(b, idMap, e))
  }

  /**
   * A second point with an already used elementary tag is refused, while
   * an edge or a triangle whose key is known is added to the line or
   * surface already recorded, which the map keeps; a new key gets a new
   * component, recorded once.
   */
  lemma LegacyAddElementEffect(b: BRep, idMap: IdMap, e: GmshElement)
    requires IdMapValid(b, idMap) && LegacyElementKind(e.kind)
    ensures var key := GmshElementID(ComponentOf(e.kind), e.elementary);
      var r := LegacyAddElement(b, idMap, e);
      && (r.Err? <==> e.kind == Point && key in idMap)
      && (e.kind != Point && key in idMap ==>
            r.Ok? && r.value.1 == idMap && |Components(r.value.0, key.kind)| == |Components(b, key.kind)|)
      && (key !in idMap ==>
            r.Ok? && r.value.1 == idMap[key := |Components(b, key.kind)|]
            && |Components(r.value.0, key.kind)| == |Components(b, key.kind)| + 1)
  {
    WithElementEffect(b, idMap, e);
  }

  /** Adding a point, an edge or a triangle of the expected shape keeps the model as reading leaves it. */
  lemma LegacyAddElementKeeps(b: BRep, idMap: IdMap, e: GmshElement)
    requires LegacyConsistent(b, idMap) && Shaped(e) && LegacyElementKind(e.kind)
    ensures var r := LegacyAddElement(b, idMap, e);
      r.Ok? ==> LegacyConsistent(r.value.0, r.value.1) && r.value.0.nbUniqueVertices == b.nbUniqueVertices
  {
    var r := LegacyAddElement(b, idMap, e);
    if r.Ok? {
      var (b', m') := WithElement(b, idMap, e);
      WithElementValid(b, idMap, e);
      WithElementEffect(b, idMap, e);
      assert Components(b', Block) == Components(b, Block);
      if e.kind == Point {
        var c := m'[GmshElementID(Corner, e.elementary)];
        assert c == |b.corners|;
        forall i | 0 <= i < |b'.corners|
          ensures |b'.corners[i].uniqueOf| == 1 && b'.corners[i].cells == []
        {
          if i != c {
            assert b'.corners[i] == b.corners[i];
          }
        }
      } else {
        assert Components(b', Corner) == Components(b, Corner);
      }
    }
  }

  /** The `nb` lines of a run from line `start`, each read by `read` with its number, 1 to `nb`. */
  function Parsed<T>(read: (nat, string) -> Result<T>, lines: seq<string>, start: nat, nb: nat): (rs: seq<Result<T>>)
    ensures |rs| == nb
  {
    seq(nb, k requires 0 <= k < nb => read(k + 1, LineAt(lines, start + k)))
  }

  /** The element lines of a run. */
  function ParsedLines(lines: seq<string>, start: nat, nb: nat): (rs: seq<Result<GmshElement>>)
    ensures |rs| == nb
  {
    Parsed(LegacyElementLine, lines, start, nb)
  }

  /** Every line that reads gives a point, an edge or a triangle of the expected shape. */
  predicate ParsedShaped(rs: seq<Result<GmshElement>>)
  {
    forall k | 0 <= k < |rs| :: rs[k].Ok? ==> Shaped(rs[k].value) && LegacyElementKind(rs[k].value.kind)
  }

  lemma ParsedLinesShaped(lines: seq<string>, start: nat, nb: nat)
    ensures ParsedShaped(ParsedLines(lines, start, nb))
  {
    var rs := ParsedLines(lines, start, nb);
    forall k | 0 <= k < nb
      ensures rs[k].Ok? ==> Shaped(rs[k].value) && LegacyElementKind(rs[k].value.kind)
    {
      LegacyElementLineFields(k + 1, LineAt(lines, start + k));
    }
  }

  /**
   * The elements of a run added one after the other, each as soon as it
   * is read: the first line that does not read, or the first point that
   * repeats a tag, stops the reading.
   */
  function LegacyElementsOf(rs: seq<Result<GmshElement>>, b: BRep, idMap: IdMap): (r: Result<(BRep, IdMap)>)
    requires IdMapValid(b, idMap)
    ensures r.Ok? ==> IdMapValid(r.value.0, r.value.1)
    decreases |rs|
  {
    if rs == [] then Ok((b, idMap))
    else
      match LegacyElementsOf(rs[..|rs| - 1], b, idMap)
      case Err(m) => Err(m)
      case Ok((b1, m1)) =>
        match rs[|rs| - 1]
        case Err(m) => Err(m)
        case Ok(e) => LegacyAddElement(b1, m1, e)
  }

  /** One more line of a run that reads so far. */
  lemma LegacyElementsStep(rs: seq<Result<GmshElement>>, n: nat, b: BRep, idMap: IdMap)
    requires IdMapValid(b, idMap) && n < |rs| && LegacyElementsOf(rs[..n], b, idMap).Ok?
    ensures var p := LegacyElementsOf(rs[..n], b, idMap).value;
      LegacyElementsOf(rs[..n + 1], b, idMap)
        == if rs[n].Err? then Err(rs[n].message) else LegacyAddElement(p.0, p.1, rs[n].value)
  {
    assert rs[..n + 1][..n] == rs[..n];
  }

  /** Once a prefix of the run fails, the whole run fails. */
  lemma {:induction false} LegacyElementsErrStays(rs: seq<Result<GmshElement>>, k: nat, b: BRep, idMap: IdMap)
    requires IdMapValid(b, idMap)
    requires k <= |rs| && LegacyElementsOf(rs[..k], b, idMap).Err?
    ensures LegacyElementsOf(rs, b, idMap).Err?
    decreases |rs|
  {
    if k < |rs| {
      var p := rs[..|rs| - 1];
      assert p[..k] == rs[..k];
      LegacyElementsErrStays(p, k, b, idMap);
    } else {
      assert rs[..k] == rs;
    }
  }

  /** Reading a run of elements keeps the model as reading leaves it. */
  lemma {:induction false} LegacyElementsKeep(rs: seq<Result<GmshElement>>, b: BRep, idMap: IdMap)
    requires LegacyConsistent(b, idMap) && ParsedShaped(rs)
    ensures var r := LegacyElementsOf(rs, b, idMap);
      r.Ok? ==> LegacyConsistent(r.value.0, r.value.1) && r.value.0.nbUniqueVertices == b.nbUniqueVertices
    decreases |rs|
  {
    var r := LegacyElementsOf(rs, b, idMap);
    if rs != [] && r.Ok? {
      var p := rs[..|rs| - 1];
      assert ParsedShaped(p);
      LegacyElementsKeep(p, b, idMap);
      var prev := LegacyElementsOf(p, b, idMap).value;
      LegacyAddElementKeeps(prev.0, prev.1, rs[|rs| - 1].value);
    }
  }

  /** The elements of a run that all read. */
  function Values<T>(rs: seq<Result<T>>): (es: seq<T>)
    requires forall k | 0 <= k < |rs| :: rs[k].Ok?
    ensures |es| == |rs| && forall k | 0 <= k < |rs| :: rs[k] == Ok(es[k])
  {
    seq(|rs|, k requires 0 <= k < |rs| => rs[k].value)
  }

  /** A run whose shorter part and last line read reads throughout. */
  lemma ValuesSnoc<T>(rs: seq<Result<T>>, p: seq<Result<T>>)
    requires rs != [] && p == rs[..|rs| - 1] && rs[|rs| - 1].Ok?
    requires forall k | 0 <= k < |p| :: p[k].Ok?
    ensures forall k | 0 <= k < |rs| :: rs[k].Ok?
    ensures Values(rs) == Values(p) + [rs[|rs| - 1].value]
  {
    assert forall k | 0 <= k < |p| :: p[k] == rs[k];
  }

  /**
   * A run that reads is one whose every line reads, and the model is what
   * the shared `add_element` makes of the elements in order.
   */
  lemma {:induction false} LegacyElementsOfApply(rs: seq<Result<GmshElement>>, b: BRep, idMap: IdMap)
    requires IdMapValid(b, idMap)
    ensures var r := LegacyElementsOf(rs, b, idMap);
      r.Ok? ==> (forall k | 0 <= k < |rs| :: rs[k].Ok?) && r.value == ApplyElements(b, idMap, Values(rs))
    decreases |rs|
  {
    var r := LegacyElementsOf(rs, b, idMap);
    if rs != [] && r.Ok? {
      var p := rs[..|rs| - 1];
      LegacyElementsOfApply(p, b, idMap);
      ValuesSnoc(rs, p);
      ApplyElementsSnoc(b, idMap, Values(p), rs[|rs| - 1].value);
    }
  }

  /** The lines all read exactly when `ReadLines` reads them, into the same values. */
  lemma ParsedRead<T>(read: (nat, string) -> Result<T>, lines: seq<string>, start: nat, nb: nat)
    ensures var rs := Parsed(read, lines, start, nb); var es := ReadLines(read, lines, start, nb);
      (es.Ok? <==> forall k | 0 <= k < nb :: rs[k].Ok?)
      && (es.Ok? ==> es.value == Values(rs))
  {
    var rs := Parsed(read, lines, start, nb);
    ReadLinesAll(read, lines, start, nb);
    var es := ReadLines(read, lines, start, nb);
    if forall k | 0 <= k < nb :: rs[k].Ok? {
      forall i | start <= i < start + nb
        ensures read(i - start + 1, LineAt(lines, i)).Ok?
      {
        assert rs[i - start].Ok?;
      }
      forall k | 0 <= k < nb
        ensures es.value[k] == Values(rs)[k]
      {
        assert read((start + k) - start + 1, LineAt(lines, start + k)) == Ok(es.value[start + k - start]);
      }
    } else {
      var k :| 0 <= k < nb && rs[k].Err?;
      assert read((start + k) - start + 1, LineAt(lines, start + k)).Err?;
    }
  }

  /**
   * When the older reader reads a run of element lines, every line reads
   * as an element and the model is what the shared `add_element` makes of
   * them in order, as in the newer readers.
   */
  lemma LegacyElementsApply(lines: seq<string>, start: nat, nb: nat, b: BRep, idMap: IdMap)
    requires IdMapValid(b, idMap)
    ensures var r := LegacyElementsOf(ParsedLines(lines, start, nb), b, idMap);
      var es := ReadLines(LegacyElementLine, lines, start, nb);
      r.Ok? ==> es.Ok? && r.value == ApplyElements(b, idMap, es.value)
  {
    LegacyElementsOfApply(ParsedLines(lines, start, nb), b, idMap);
    ParsedRead(LegacyElementLine, lines, start, nb);
  }

  /**
   * The `nb` element lines of a section from line `start`, each added as
   * soon as it is read, then "$EndElements"; the model, the map and the
   * line after the section.
   */
  function LegacyElementRun(lines: seq<string>, start: nat, nb: nat, b: BRep, idMap: IdMap): (r: Result<(BRep, IdMap, nat)>)
    requires IdMapValid(b, idMap)
  {
    ElementsEnd(lines, start + nb, LegacyElementsOf(ParsedLines(lines, start, nb), b, idMap))
  }

  /** After the element lines, whose reading gave `run`: "$EndElements" on line `end`. */
  function ElementsEnd(lines: seq<string>, end: nat, run: Result<(BRep, IdMap)>): (r: Result<(BRep, IdMap, nat)>)
    ensures r.Ok? <==> run.Ok? && StartsWith(LineAt(lines, end), END_ELEMENTS)
    ensures r.Ok? ==> run == Ok((r.value.0, r.value.1)) && r.value.2 == end + 1
  {
    if run.Err? then Err(run.message)
    else if StartsWith(LineAt(lines, end), END_ELEMENTS) then Ok((run.value.0, run.value.1, end + 1))
    else Err(NO_END_ELEMENTS)
  }

  /** Reading a run of element lines keeps the model as reading leaves it. */
  lemma LegacyElementRunKeep(lines: seq<string>, start: nat, nb: nat, b: BRep, idMap: IdMap)
    requires LegacyConsistent(b, idMap)
    ensures var r := LegacyElementRun(lines, start, nb, b, idMap);
      r.Ok? ==> LegacyConsistent(r.value.0, r.value.1) && r.value.0.nbUniqueVertices == b.nbUniqueVertices
  {
    ParsedLinesShaped(lines, start, nb);
    LegacyElementsKeep(ParsedLines(lines, start, nb), b, idMap);
  }

  /**
   * `read_element_section` from line `cursor`: the "$Elements" line, the
   * count, then the element lines.
   */
  function LegacyElementSection(lines: seq<string>, cursor: nat, b: BRep, idMap: IdMap): Result<(BRep, IdMap, nat)>
    requires IdMapValid(b, idMap)
  {
    var h := FindLine(lines, cursor, ELEMENTS);
    match SectionCount(lines, h, NO_ELEMENT_SECTION)
    case Err(m) => Err(m)
    case Ok(nb) => LegacyElementRun(lines, h.value + 2, nb, b, idMap)
  }

  /** The loop of `read_element_section` on the text: `nb` element lines from line `start`, each read by `read_element`. */
  method ReadElementLines(lines: seq<string>, start: nat, nb: nat) returns (rs: seq<Result<GmshElement>>)
    ensures rs == ParsedLines(lines, start, nb)
  {
    rs := [];
    var n := 0;
    while n < nb
      invariant n <= nb && |rs| == n
      invariant forall k | 0 <= k < n :: rs[k] == LegacyElementLine(k + 1, LineAt(lines, start + k))
    {
      var e := ReadElement(n + 1, LineAt(lines, start + n));
      rs := rs + [e];
      n := n + 1;
    }
  }

  // ---------------------------------------------------------------------
  // read_file
  // ---------------------------------------------------------------------

  /** The model before the elements: `create_unique_vertices(nb_nodes)` on an empty model. */
  function NodesOnly(n: nat): (b: BRep)
    ensures LegacyConsistent(b, map[]) && b.nbUniqueVertices == n
  {
    var b := EmptyBRep.(nbUniqueVertices := n);
    assert forall t :: Components(b, t) == [];
    b
  }

  /**
   * `read_file`: the header, the nodes with one unique vertex each, then
   * the elements; the nodes, the model and the map.
   */
  function LegacyReadAll(lines: seq<string>): Result<(seq<Coords>, BRep, IdMap)>
  {
    match LegacyHeader(lines)
    case Fail(m) => Err(m)
    case Pass =>
      match LegacyNodeSection(lines, 3)
      case Err(m) => Err(m)
      case Ok((nodes, next)) =>
        match LegacyElementSection(lines, next, NodesOnly(|nodes|), map[])
        case Err(m) => Err(m)
        case Ok((b1, m1, _)) => Ok((nodes, b1, m1))
  }

  /** Reading an element section keeps the model as reading leaves it. */
  lemma LegacyElementSectionKeep(lines: seq<string>, cursor: nat, b: BRep, idMap: IdMap)
    requires LegacyConsistent(b, idMap)
    ensures var r := LegacyElementSection(lines, cursor, b, idMap);
      r.Ok? ==> LegacyConsistent(r.value.0, r.value.1) && r.value.0.nbUniqueVertices == b.nbUniqueVertices
  {
    var h := FindLine(lines, cursor, ELEMENTS);
    var c := SectionCount(lines, h, NO_ELEMENT_SECTION);
    if c.Ok? {
      LegacyElementRunKeep(lines, h.value + 2, c.value, b, idMap);
    }
  }

  /**
   * A file that reads gives a model as reading leaves it, with one unique
   * vertex per node.
   */
  lemma LegacyReadAllConsistent(lines: seq<string>)
    ensures var r := LegacyReadAll(lines);
      r.Ok? ==> LegacyConsistent(r.value.1, r.value.2) && r.value.1.nbUniqueVertices == |r.value.0|
  {
    if LegacyHeader(lines).Pass? && LegacyNodeSection(lines, 3).Ok? {
      var (nodes, next) := LegacyNodeSection(lines, 3).value;
      LegacyElementSectionKeep(lines, next, NodesOnly(|nodes|), map[]);
    }
  }

  /** A model as reading leaves it has a vertex in every corner. */
  lemma LegacyPlaced(b: BRep, idMap: IdMap)
    requires LegacyConsistent(b, idMap)
    ensures AllPlaced(b.corners) && AllWellFormed(b) && RelationsValid(b)
  {
  }

  /**
   * Filtering leaves, in every component, exactly one local vertex per
   * unique vertex the component reached.
   */
  lemma FilteredOncePerUniqueVertex(cs: seq<Component>, rs: seq<Component>)
    requires AllFiltered(cs, rs)
    ensures forall i | 0 <= i < |rs| ::
      NoDuplicates(rs[i].uniqueOf) && Elements(rs[i].uniqueOf) == Elements(cs[i].uniqueOf)
      && |rs[i].uniqueOf| == |Elements(cs[i].uniqueOf)|
  {
    forall i | 0 <= i < |rs|
      ensures NoDuplicates(rs[i].uniqueOf) && Elements(rs[i].uniqueOf) == Elements(cs[i].uniqueOf)
      ensures |rs[i].uniqueOf| == |Elements(cs[i].uniqueOf)|
    {
      DedupProperties(cs[i].uniqueOf);
    }
  }

  /** The points of the corners, then of the lines, then of the surfaces, of a model without blocks. */
  method PlaceCornersLinesSurfaces(b: BRep, nodes: seq<Coords>) returns (points: map<ComponentId, seq<Coords>>)
    requires b.blocks == [] && NodesCover(b, |nodes|) && AllPlaced(b.corners)
    ensures points == Geometry(b, nodes)
  {
    var cornerPoints := PlaceKind(Corner, b.corners, nodes);
    var linePoints := PlaceKind(Line, b.lines, nodes);
    var surfacePoints := PlaceKind(Surface, b.surfaces, nodes);
    points := cornerPoints + linePoints + surfacePoints;
    assert KindGeometry(Block, b.blocks, nodes) == map[];
  }

  // ---------------------------------------------------------------------
  // The reader
  // ---------------------------------------------------------------------

  class LegacyMshReader {
    const lines: seq<string>
    var cursor: nat
    var nodes: seq<Coords>
    var idMap: IdMap
    var brep: BRep
    /** The points given to each component mesh by `build_geometry`. */
    var points: map<ComponentId, seq<Coords>>

    constructor(lines: seq<string>)
      ensures this.lines == lines && cursor == 0 && nodes == [] && idMap == map[]
      ensures brep == EmptyBRep && points == map[]
    {
      this.lines := lines;
      cursor := 0;
      nodes := [];
      idMap := map[];
      brep := EmptyBRep;
      points := map[];
    }

    /** `read_header`, from the start of the file. */
    method ReadHeader() returns (r: Outcome)
      modifies this`cursor
      ensures r == LegacyHeader(lines)
      ensures r.Pass? ==> cursor == 3
    {
      if !StartsWith(LineAt(lines, 0), MESH_FORMAT) {
        return Fail(NO_MESH_FORMAT);
      }
      r := LegacyVersion(LineAt(lines, 1));
      if r.Fail? {
        return;
      }
      if !StartsWith(LineAt(lines, 2), END_MESH_FORMAT) {
        return Fail(NO_END_MESH_FORMAT);
      }
      cursor := 3;
    }

    /** `read_node_section`: the nodes, then one unique vertex per node. */
    method ReadNodeSection() returns (r: Outcome)
      modifies this`cursor, this`nodes, this`brep
      ensures var s := LegacyNodeSection(lines, old(cursor));
        && (r.Pass? <==> s.Ok?)
        && (r.Pass? ==> (
          && nodes == old(nodes) + s.value.0 && cursor == s.value.1
          && brep == old(brep).(nbUniqueVertices := old(brep).nbUniqueVertices + |s.value.0|)))
    {
      var h := FindSection(lines, cursor, NODES);
      var count := SectionCount(lines, h, NO_NODE_SECTION);
      if count.Err? {
        return Fail(count.message);
      }
      r := ReadNodeRun(h.value + 2, count.value);
    }

    /** The `nb` node lines from line `start`, then "$EndNodes". */
    method ReadNodeRun(start: nat, nb: nat) returns (r: Outcome)
      modifies this`cursor, this`nodes, this`brep
      ensures var s := LegacyNodeRun(lines, start, nb);
        && (r.Pass? <==> s.Ok?)
        && (r.Pass? ==> (
          && nodes == old(nodes) + s.value.0 && cursor == s.value.1
          && brep == old(brep).(nbUniqueVertices := old(brep).nbUniqueVertices + |s.value.0|)))
    {
      assert LegacyNodeRun(lines, start, nb) == NodesEnd(lines, start + nb, ReadLines(LegacyNodeLine, lines, start, nb));
      var ps := ReadNodeLines(lines, start, nb);
      if ps.Err? {
        return Fail(ps.message);
      }
      if !StartsWith(LineAt(lines, start + nb), END_NODES) {
        return Fail(NO_END_NODES);
      }
      nodes := nodes + ps.value;
      cursor := start + nb + 1;
      brep := brep.(nbUniqueVertices := brep.nbUniqueVertices + nb);
      r := Pass;
    }

    /** `read_element_section`: every element is added to the model as soon as it is read. */
    method ReadElementSection() returns (r: Outcome)
      requires IdMapValid(brep, idMap)
      modifies this`cursor, this`brep, this`idMap
      ensures var s := LegacyElementSection(lines, old(cursor), old(brep), old(idMap));
        && (r.Pass? <==> s.Ok?)
        && (r.Pass? ==> (brep, idMap, cursor) == s.value)
    {
      var h := FindSection(lines, cursor, ELEMENTS);
      var count := SectionCount(lines, h, NO_ELEMENT_SECTION);
      if count.Err? {
        return Fail(count.message);
      }
      r := ReadElementRun(h.value + 2, count.value);
    }

    /** The `nb` element lines from line `start`, then "$EndElements". */
    method ReadElementRun(start: nat, nb: nat) returns (r: Outcome)
      requires IdMapValid(brep, idMap)
      modifies this`cursor, this`brep, this`idMap
      ensures var s := LegacyElementRun(lines, start, nb, old(brep), old(idMap));
        && (r.Pass? <==> s.Ok?)
        && (r.Pass? ==> (brep, idMap, cursor) == s.value)
    {
      assert LegacyElementRun(lines, start, nb, brep, idMap)
        == ElementsEnd(lines, start + nb, LegacyElementsOf(ParsedLines(lines, start, nb), brep, idMap));
      var rs := ReadElementLines(lines, start, nb);
      r := AddLegacyElements(rs);
      if r.Fail? {
        return;
      }
      if !StartsWith(LineAt(lines, start + nb), END_ELEMENTS) {
        return Fail(NO_END_ELEMENTS);
      }
      cursor := start + nb + 1;
    }

    /** `add_element` for each line read in turn; the first line that does not read, or is refused, stops it. */
    method AddLegacyElements(rs: seq<Result<GmshElement>>) returns (r: Outcome)
      requires IdMapValid(brep, idMap)
      modifies this`brep, this`idMap
      ensures var e := LegacyElementsOf(rs, old(brep), old(idMap));
        && (r.Pass? <==> e.Ok?)
        && (r.Pass? ==> (brep, idMap) == e.value)
    {
      var n := 0;
      while n < |rs|
        invariant n <= |rs|
        invariant IdMapValid(brep, idMap)
        invariant LegacyElementsOf(rs[..n], old(brep), old(idMap)) == Ok((brep, idMap))
      {
        LegacyElementsStep(rs, n, old(brep), old(idMap));
        if rs[n].Err? {
          LegacyElementsErrStays(rs, n + 1, old(brep), old(idMap));
          return Fail(rs[n].message);
        }
        var a := AddLegacyElement(rs[n].value);
        if a.Fail? {
          LegacyElementsErrStays(rs, n + 1, old(brep), old(idMap));
          return a;
        }
        n := n + 1;
      }
      assert rs[..n] == rs;
      r := Pass;
    }

    /** `add_element` of a point, an edge or a triangle. */
    method AddLegacyElement(e: GmshElement) returns (r: Outcome)
      requires IdMapValid(brep, idMap)
      modifies this`brep, this`idMap
      ensures var a := LegacyAddElement(old(brep), old(idMap), e);
        && (r.Pass? <==> a.Ok?)
        && (r.Pass? ==> (brep, idMap) == a.value)
    {
      if e.kind == Point && GmshElementID(Corner, e.elementary) in idMap {
        return Fail(REPEATED_POINT);
      }
      brep, idMap := AddElement(brep, idMap, e);
      r := Pass;
    }

    /** `read_file` on a fresh reader. */
    method ReadFile() returns (r: Outcome)
      requires cursor == 0 && nodes == [] && idMap == map[] && brep == EmptyBRep
      modifies this`cursor, this`nodes, this`brep, this`idMap
      ensures var a := LegacyReadAll(lines);
        && (r.Pass? <==> a.Ok?)
        && (r.Pass? ==> (nodes, brep, idMap) == a.value)
    {
      r := ReadHeader();
      if r.Fail? {
        return;
      }
      r := ReadNodeSection();
      if r.Fail? {
        return;
      }
      ghost var ns := LegacyNodeSection(lines, 3);
      assert ns.Ok? && nodes == ns.value.0 && cursor == ns.value.1;
      assert brep == NodesOnly(|nodes|);
      r := ReadElementSection();
      ghost var es := LegacyElementSection(lines, ns.value.1, NodesOnly(|nodes|), map[]);
      assert r.Pass? <==> es.Ok?;
      assert r.Pass? ==> (brep, idMap) == (es.value.0, es.value.1);
    }

    /**
     * `build_geometry`: build_corners, then build_lines and
     * build_surfaces, which filter the duplicated vertices of each line
     * and surface before placing its points. There is no block to build.
     */
    method BuildGeometry()
      requires AllWellFormed(brep) && brep.blocks == [] && NodesCover(brep, |nodes|) && AllPlaced(brep.corners)
      modifies this`brep, this`points
      ensures brep.corners == old(brep.corners) && brep.blocks == []
      ensures brep.nbUniqueVertices == old(brep.nbUniqueVertices) && brep.boundaries == old(brep.boundaries)
      ensures AllFiltered(old(brep.lines), brep.lines) && AllFiltered(old(brep.surfaces), brep.surfaces)
      ensures AllWellFormed(brep) && NodesCover(brep, |nodes|)
      ensures points == Geometry(brep, nodes)
    {
      KindsWellFormed(brep);
      var ls := FilterAll(brep.lines);
      FilterAllCovered(brep.lines, ls, |nodes|);
      var ss := FilterAll(brep.surfaces);
      FilterAllCovered(brep.surfaces, ss, |nodes|);
      brep := brep.(lines := ls, surfaces := ss);
      KindsWellFormed(brep);
      points := PlaceCornersLinesSurfaces(brep, nodes);
    }

    /** `build_topology`: the inferred corner-line, line-surface and surface-block relations are added. */
    method BuildTopology()
      modifies this`brep
      ensures brep == old(brep).(boundaries := old(brep).boundaries + Topology(old(brep)))
    {
      var cl := InferPairs(brep, Corner, Line);
      var ls := InferPairs(brep, Line, Surface);
      var sb := InferPairs(brep, Surface, Block);
      brep := brep.(boundaries := brep.boundaries + (cl + ls + sb));
    }

    /** `build_geometry` then `build_topology`, on a model as reading leaves it. */
    method Build()
      requires LegacyConsistent(brep, idMap) && NodesCover(brep, |nodes|)
      modifies this`brep, this`points
      ensures brep.corners == old(brep.corners) && brep.blocks == []
      ensures brep.nbUniqueVertices == old(brep.nbUniqueVertices)
      ensures AllFiltered(old(brep.lines), brep.lines) && AllFiltered(old(brep.surfaces), brep.surfaces)
      ensures brep.boundaries == Topology(old(brep))
      ensures AllWellFormed(brep) && RelationsValid(brep) && NodesCover(brep, |nodes|) && AllPlaced(brep.corners)
      ensures points == Geometry(brep, nodes)
    {
      ghost var read := brep;
      LegacyPlaced(brep, idMap);
      BuildGeometry();
      ghost var filtered := brep;
      FilteredTopology(read, filtered);
      BuildTopology();
      assert brep.(boundaries := filtered.boundaries) == filtered;
    }
  }

  /** The constructor of the older reader, then `read_file`. */
  method LegacyOpen(lines: seq<string>) returns (r: Outcome, reader: LegacyMshReader)
    ensures fresh(reader) && reader.points == map[]
    ensures var a := LegacyReadAll(lines);
      && (r.Pass? <==> a.Ok?)
      && (r.Pass? ==> (reader.nodes, reader.brep, reader.idMap) == a.value)
  {
    reader := new LegacyMshReader(lines);
    r := reader.ReadFile();
  }

  /**
   * `MSHInput::read` of the older reader: `read_file`, `build_geometry`,
   * `build_topology`. The model reads as `LegacyReadAll` says; every line
   * and surface is then filtered, the relations are exactly the inferred
   * ones, and every component gets its points. A file in which an
   * element uses a node beyond those read fails: the source indexes past
   * its node list there.
   */
  method LegacyRead(lines: seq<string>) returns (r: Outcome, b: BRep, pts: map<ComponentId, seq<Coords>>)
    ensures var a := LegacyReadAll(lines);
      && (r.Pass? <==> a.Ok? && NodesCover(a.value.1, |a.value.0|))
      && (r.Pass? ==>
        && b.corners == a.value.1.corners && b.blocks == []
        && AllFiltered(a.value.1.lines, b.lines) && AllFiltered(a.value.1.surfaces, b.surfaces)
        && b.nbUniqueVertices == |a.value.0|
        && b.boundaries == Topology(a.value.1)
        && AllWellFormed(b) && RelationsValid(b) && NodesCover(b, |a.value.0|) && AllPlaced(b.corners)
        && pts == Geometry(b, a.value.0))
  {
    b, pts := EmptyBRep, map[];
    var reader;
    r, reader := LegacyOpen(lines);
    if r.Fail? {
      return;
    }
    if !NodesCover(reader.brep, |reader.nodes|) {
      return Fail(NODE_BEYOND), b, pts;
    }
    LegacyReadAllConsistent(lines);
    reader.Build();
    b, pts := reader.brep, reader.points;
  }
}
