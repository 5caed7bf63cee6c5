/**
 * What the MSH reader (src/geode/io/model/msh_input.cpp) reads from the
 * lines of a file, as functions of the lines: the header, the section
 * names, and the entity, node and element sections of versions 2 and 4.
 * Every line is read through a fresh `std::istringstream`, modelled by the
 * Streams module; a variable read from a stream that has failed keeps the
 * value it had, and an uninitialised variable is taken to hold 0.
 */
module MshLines {
  import opened Wrappers
  import opened Text
  import opened Streams
  import opened BRepModel
  import opened MshCommon

  // ---------------------------------------------------------------------
  // Header and section names
  // ---------------------------------------------------------------------

  /** `read_section_names` keeps a line that starts with "$" but not with "$End". */
  predicate IsSectionName(line: string)
  {
    StartsWith(line, "$") && !StartsWith(line, END_PREFIX)
  }

  /** The section names among `ls`, in file order. */
  function SectionNames(ls: seq<string>): (r: seq<string>)
    ensures forall k | 0 <= k < |r| :: IsSectionName(r[k])
    decreases |ls|
  {
    if ls == [] then []
    else SectionNames(ls[..|ls| - 1]) + (if IsSectionName(ls[|ls| - 1]) then [ls[|ls| - 1]] else [])
  }

  /** A line is collected iff it is a section name. */
  lemma {:induction false} SectionNamesMembers(ls: seq<string>, x: string)
    ensures x in SectionNames(ls) <==> x in ls && IsSectionName(x)
    decreases |ls|
  {
    if ls != [] {
      var p := ls[..|ls| - 1];
      SectionNamesMembers(p, x);
      assert ls == p + [ls[|ls| - 1]];
    }
  }

  /** The names are collected in file order: reading two parts one after the other. */
  lemma {:induction false} SectionNamesConcat(a: seq<string>, b: seq<string>)
    ensures SectionNames(a + b) == SectionNames(a) + SectionNames(b)
    decreases |b|
  {
    if b == [] {
      assert a + b == a;
    } else {
      var p := b[..|b| - 1];
      SectionNamesConcat(a, p);
      assert (a + b)[..|a + b| - 1] == a + p;
    }
  }

  /** Number of leading decimal digits of `t`. */
  function LeadingDigits(t: string): (n: nat)
    ensures n <= |t| && AllDigits(t[..n])
    ensures n < |t| ==> !IsDigit(t[n])
  {
    if t == [] || !IsDigit(t[0]) then 0
    else
      var n := 1 + LeadingDigits(t[1..]);
      assert t[..n] == [t[0]] + t[1..][..n - 1];
      n
  }

  /**
   * `std::floor` of the version read as a double, for a token of the form
   * digits or digits.digits only: an exponent ("4.1e0") or trailing text
   * ("4.1abc") gives None here.
   */
  function VersionFloor(t: string): (r: Option<nat>)
    ensures r.Some? ==> LeadingDigits(t) > 0 && r.value == DigitsValue(t[..LeadingDigits(t)])
  {
    var n := LeadingDigits(t);
    if n == 0 then None
    else if n == |t| || (t[n] == '.' && AllDigits(t[n + 1..])) then Some(DigitsValue(t[..n]))
    else None
  }

  /**
   * `set_msh_version`: the version's floor must be 2 or 4 and the file
   * type read after it must be 0 (ascii).
   */
  function MshVersion(line: string): (r: Result<nat>)
    ensures r.Ok? ==> r.value == 2 || r.value == 4
    ensures r.Ok? ==> |Split(line)| > 0 && VersionFloor(Split(line)[0]) == Some(r.value)
    ensures (|Split(line)| > 1 && ParseIndex(Split(line)[1]).Some? && ParseIndex(Split(line)[1]).value != 0) ==> r.Err?
    ensures r.Ok? <==> (
      && |Split(line)| > 0
      && (VersionFloor(Split(line)[0]) == Some(2) || VersionFloor(Split(line)[0]) == Some(4))
      && ExtractIndex(OfLine(line).(pos := 1), 0).0 == 0)
  {
    var s := OfLine(line);
    if !HasToken(s) then Err("Only MSH file format versions 2 and 4 are supported for now.")
    else
      match VersionFloor(s.tokens[0])
      case None => Err("Only MSH file format versions 2 and 4 are supported for now.")
      case Some(v) =>
        if v != 2 && v != 4 then Err("Only MSH file format versions 2 and 4 are supported for now.")
        else if ExtractIndex(s.(pos := 1), 0).0 != 0 then Err("Binary format is not supported for now.")
        else Ok(v)
  }

  /** `read_header` on a reader opened at the start of the file. */
  function Header(lines: seq<string>): (r: Result<nat>)
    ensures r.Ok? <==> (
      && StartsWith(LineAt(lines, 0), MESH_FORMAT)
      && MshVersion(LineAt(lines, 1)).Ok?
      && StartsWith(LineAt(lines, 2), END_MESH_FORMAT))
    ensures r.Ok? ==> r == MshVersion(LineAt(lines, 1))
  {
    if !StartsWith(LineAt(lines, 0), MESH_FORMAT) then Err("Line should starts with \"$MeshFormat\"")
    else
      match MshVersion(LineAt(lines, 1))
      case Err(m) => Err(m)
      case Ok(v) =>
        if StartsWith(LineAt(lines, 2), END_MESH_FORMAT) then Ok(v)
        else Err("Line should starts with \"$EndMeshFormat\"")
  }

  /** `go_to_section`: the first line at or after `from` that starts with `prefix`. */
  function FindLine(lines: seq<string>, from: nat, prefix: string): (r: Option<nat>)
    ensures r.Some? ==> from <= r.value < |lines| && StartsWith(lines[r.value], prefix)
    decreases |lines| - from
  {
    if from >= |lines| then None
    else if StartsWith(lines[from], prefix) then Some(from)
    else FindLine(lines, from + 1, prefix)
  }

  /** The line `FindLine` finds is the first one from `from` with the prefix; none means there is none. */
  lemma {:induction false} FindLineFirst(lines: seq<string>, from: nat, prefix: string)
    ensures var r := FindLine(lines, from, prefix);
      && (r.Some? ==> forall i | from <= i < r.value :: !StartsWith(lines[i], prefix))
      && (r.None? ==> forall i | from <= i < |lines| :: !StartsWith(lines[i], prefix))
    decreases |lines| - from
  {
    if from < |lines| && !StartsWith(lines[from], prefix) {
      FindLineFirst(lines, from + 1, prefix);
    }
  }

  /** The message of `std::map::at` on a key the map does not hold. */
  const KEY_NOT_FOUND := "map::at: key not found"

  /** The message of `std::stoi` on a text that does not start with a number. */
  const NO_CONVERSION := "stoi: no conversion"
  /** The message of `std::stoi` on a number beyond the 32-bit range. */
  const OUT_OF_RANGE := "stoi: out of range"

  /**
   * `std::stoi` of a count line, restricted to a first token made only of
   * decimal digits whose value fits an `int`; `std::stoi` also takes a
   * sign and stops at the first character that is not a digit.
   */
  function Stoi(line: string): (r: Result<nat>)
    ensures r.Ok? ==> r.value <= SIGNED_MAX
    ensures r.Ok? <==> |Split(line)| > 0 && ParseNat(Split(line)[0]).Some? && ParseNat(Split(line)[0]).value <= SIGNED_MAX
  {
    var t := Split(line);
    if t == [] then Err(NO_CONVERSION)
    else
      match ParseNat(t[0])
      case None => Err(NO_CONVERSION)
      case Some(n) => if n <= SIGNED_MAX then Ok(n) else Err(OUT_OF_RANGE)
  }

  // ---------------------------------------------------------------------
  // Extractions
  // ---------------------------------------------------------------------

  /** `n` extractions into fresh `index_t` variables: the values and the stream after them. */
  function Extractions(s: Stream, n: nat): (r: (seq<Index>, Stream))
    ensures |r.0| == n && r.1.tokens == s.tokens
    decreases n
  {
    if n == 0 then ([], s)
    else
      var (v, s1) := ExtractIndex(s, 0);
      var (rest, s2) := Extractions(s1, n - 1);
      ([v] + rest, s2)
  }

  /** Whether the `i` tokens from the read position all convert to an `index_t`. */
  predicate Readable(s: Stream, i: nat)
  {
    s.good && s.pos + i <= |s.tokens| && forall j | s.pos <= j < s.pos + i :: ParseIndex(s.tokens[j]).Some?
  }

  /**
   * The value the `i`-th of a run of extractions from `s` stores into a
   * fresh variable: the token's value while every earlier token converted,
   * the largest value for a token too large, 0 otherwise.
   */
  function FieldAt(s: Stream, i: nat): Index
  {
    if Readable(s, i) && s.pos + i < |s.tokens| then
      match ParseNat(s.tokens[s.pos + i])
      case Some(n) => if n < INDEX_LIMIT then n else NO_ID
      case None => 0
    else 0
  }

  /** The first `n` values read from `line` with `iss >> a >> b >> ...`. */
  function Fields(line: string, n: nat): (r: seq<Index>)
    ensures |r| == n
  {
    seq(n, i requires 0 <= i < n => FieldAt(OfLine(line), i))
  }

  /** The extractions one after the other store the values `FieldAt` gives. */
  lemma {:induction false} ExtractionsAreFields(s: Stream, n: nat)
    ensures forall k | 0 <= k < n :: Extractions(s, n).0[k] == FieldAt(s, k)
    decreases n
  {
    if n > 0 {
      var s1 := ExtractIndex(s, 0).1;
      ExtractionsAreFields(s1, n - 1);
      forall k | 0 < k < n
        ensures Extractions(s, n).0[k] == FieldAt(s, k)
      {
        assert Extractions(s, n).0[k] == Extractions(s1, n - 1).0[k - 1];
        if s1.good {
          assert Readable(s1, k - 1) <==> Readable(s, k);
        }
      }
    }
  }

  /** `Fields` is what the extractions from the line's stream read. */
  lemma FieldsAreExtractions(line: string, n: nat)
    ensures Fields(line, n) == Extractions(OfLine(line), n).0
  {
    ExtractionsAreFields(OfLine(line), n);
  }

  /** When the next `n` tokens are numbers below 2^32, the extractions read exactly them. */
  lemma {:induction false} ExtractionsOfNumbers(s: Stream, n: nat)
    requires s.good && s.pos + n <= |s.tokens|
    requires forall k | s.pos <= k < s.pos + n :: ParseIndex(s.tokens[k]).Some?
    ensures Extractions(s, n).1 == s.(pos := s.pos + n)
    ensures forall k | 0 <= k < n :: Extractions(s, n).0[k] == ParseIndex(s.tokens[s.pos + k]).value
    decreases n
  {
    if n > 0 {
      var s1 := ExtractIndex(s, 0).1;
      ExtractionsOfNumbers(s1, n - 1);
    }
  }

  /**
   * `n` extractions into one `index_t` that holds `prev` before the first:
   * the value after every extraction, and the stream after them.
   */
  function StreamIds(s: Stream, prev: Index, n: nat): (r: (seq<Index>, Stream))
    ensures |r.0| == n && r.1.tokens == s.tokens
    decreases n
  {
    if n == 0 then ([], s)
    else
      var (v, s1) := ExtractIndex(s, prev);
      var (rest, s2) := StreamIds(s1, v, n - 1);
      ([v] + rest, s2)
  }

  /** After a failed extraction the variable keeps its value: every later id repeats it. */
  lemma {:induction false} StreamIdsAfterFailure(s: Stream, prev: Index, n: nat)
    requires !s.good
    ensures forall k | 0 <= k < n :: StreamIds(s, prev, n).0[k] == prev
    decreases n
  {
    if n > 0 {
      StreamIdsAfterFailure(s.(good := false), prev, n - 1);
    }
  }

  /** When the next `n` tokens are numbers below 2^32, the ids are exactly them. */
  lemma {:induction false} StreamIdsOfNumbers(s: Stream, prev: Index, n: nat)
    requires s.good && s.pos + n <= |s.tokens|
    requires forall k | s.pos <= k < s.pos + n :: ParseIndex(s.tokens[k]).Some?
    ensures forall k | 0 <= k < n :: StreamIds(s, prev, n).0[k] == ParseIndex(s.tokens[s.pos + k]).value
    decreases n
  {
    if n > 0 {
      var (v, s1) := ExtractIndex(s, prev);
      StreamIdsOfNumbers(s1, v, n - 1);
    }
  }

  // ---------------------------------------------------------------------
  // Consecutive lines
  // ---------------------------------------------------------------------

  /**
   * `nb` consecutive lines from line `start`, each read by `read` with its
   * number 1, 2, ..., nb; the first line that fails stops the reading.
   */
  function ReadLines<T>(read: (nat, string) -> Result<T>, lines: seq<string>, start: nat, nb: nat): (r: Result<seq<T>>)
    ensures r.Ok? ==> |r.value| == nb
    decreases nb
  {
    if nb == 0 then Ok([])
    else
      match ReadLines(read, lines, start, nb - 1)
      case Err(m) => Err(m)
      case Ok(xs) =>
        match read(nb, LineAt(lines, start + nb - 1))
        case Err(m) => Err(m)
        case Ok(x) => Ok(xs + [x])
  }

  /**
   * The lines read iff every one of them does, and the k-th result is
   * then what line `start + k` reads as.
   */
  lemma {:induction false} ReadLinesAll<T>(read: (nat, string) -> Result<T>, lines: seq<string>, start: nat, nb: nat)
    ensures ReadLines(read, lines, start, nb).Ok? <==>
      forall i | start <= i < start + nb :: read(i - start + 1, LineAt(lines, i)).Ok?
    ensures ReadLines(read, lines, start, nb).Ok? ==>
      forall i | start <= i < start + nb ::
        read(i - start + 1, LineAt(lines, i)) == Ok(ReadLines(read, lines, start, nb).value[i - start])
    decreases nb
  {
    if nb > 0 {
      ReadLinesAll(read, lines, start, nb - 1);
      var last := start + nb - 1;
      var prev := ReadLines(read, lines, start, nb - 1);
      var r := ReadLines(read, lines, start, nb);
      if r.Ok? {
        assert prev.Ok? && r.value == prev.value + [read(nb, LineAt(lines, last)).value];
        forall i | start <= i < start + nb
          ensures read(i - start + 1, LineAt(lines, i)) == Ok(r.value[i - start])
        {
          if i < last {
            assert r.value[i - start] == prev.value[i - start];
          }
        }
      } else if prev.Ok? {
        assert read(last - start + 1, LineAt(lines, last)).Err?;
      } else {
        var i :| start <= i < last && !read(i - start + 1, LineAt(lines, i)).Ok?;
      }
    }
  }

  /** A node's coordinates, kept as their text (floating point is not modelled). */
  datatype Coords = Coords(x: string, y: string, z: string)

  /** `read_node_coordinates`: three extractions. */
  function Coordinates(s: Stream): (p: Coords)
    ensures s.good && s.pos + 3 <= |s.tokens| ==>
      p == Coords(s.tokens[s.pos], s.tokens[s.pos + 1], s.tokens[s.pos + 2])
  {
    var (x, s1) := ExtractText(s);
    var (y, s2) := ExtractText(s1);
    var (z, _) := ExtractText(s2);
    Coords(x, y, z)
  }

  /** `read_node`: the node id must be the expected one; the coordinates follow it. */
  function NodeLineV2(expected: nat, line: string): (r: Result<Coords>)
    ensures r.Ok? <==> Fields(line, 1)[0] == expected
  {
    var (id, s) := ExtractIndex(OfLine(line), 0);
    if id != expected then Err("Node indices should be continuous.")
    else Ok(Coordinates(s))
  }

  /**
   * Version 2 node numbers must run 1, 2, ..., nb: the node lines read
   * iff they do.
   */
  lemma NodesV2Continuous(lines: seq<string>, start: nat, nb: nat)
    ensures ReadLines(NodeLineV2, lines, start, nb).Ok? <==>
      forall i | start <= i < start + nb :: Fields(LineAt(lines, i), 1)[0] == i - start + 1
  {
    ReadLinesAll(NodeLineV2, lines, start, nb);
  }

  /**
   * `read_node_section_v2` from line `cursor`: the nodes and the line after
   * "$EndNodes".
   */
  function NodeSectionV2(lines: seq<string>, cursor: nat): (r: Result<(seq<Coords>, nat)>)
  {
    match FindLine(lines, cursor, NODES)
    case None => Err("Cannot find the section $Nodes")
    case Some(h) => NodeBodyV2(lines, h)
  }

  /** A version 2 node section whose "$Nodes" line is line `h`: the count, then the node lines. */
  function NodeBodyV2(lines: seq<string>, h: nat): (r: Result<(seq<Coords>, nat)>)
  {
    match Stoi(LineAt(lines, h + 1))
    case Err(m) => Err(m)
    case Ok(nb) => NodesUntilEnd(lines, h + 2, nb)
  }

  /** `nb` version 2 node lines from line `start`, then "$EndNodes"; the nodes and the line after it. */
  function NodesUntilEnd(lines: seq<string>, start: nat, nb: nat): (r: Result<(seq<Coords>, nat)>)
    ensures r.Ok? ==> |r.value.0| == nb && r.value.1 == start + nb + 1
    ensures r.Ok? ==> StartsWith(LineAt(lines, start + nb), END_NODES)
  {
    match ReadLines(NodeLineV2, lines, start, nb)
    case Err(m) => Err(m)
    case Ok(ps) =>
      var next: nat := start + nb + 1;
      if StartsWith(LineAt(lines, start + nb), END_NODES) then Ok((ps, next))
      else Err("Line should starts with \"$EndNodes\"")
  }

  /**
   * `read_node_group`: a header "dim entity parametric nb", `nb` lines of
   * node tags that are skipped, then `nb` lines of coordinates. Parametric
   * coordinates are rejected.
   */
  function NodeGroupV4(lines: seq<string>, start: nat): (r: Result<(seq<Coords>, nat)>)
    ensures r.Ok? <==> Fields(LineAt(lines, start), 4)[2] == 0
    ensures r.Ok? ==> var nb := Fields(LineAt(lines, start), 4)[3];
      |r.value.0| == nb && r.value.1 == start + 1 + 2 * (nb as nat)
  {
    var h := Fields(LineAt(lines, start), 4);
    var nb: nat := h[3];
    if h[2] != 0 then Err("Parametric node coordinates is not supported for now")
    else
      var ps := seq(nb, k requires 0 <= k < nb => Coordinates(OfLine(LineAt(lines, start + 1 + nb + k))));
      var next: nat := start + 1 + 2 * nb;
      Ok((ps, next))
  }

  /**
   * A group's nodes are the coordinates of its second block of `nb` lines,
   * in order: the node tags of the first block are not used.
   */
  lemma NodeGroupV4Coordinates(lines: seq<string>, start: nat)
    requires NodeGroupV4(lines, start).Ok?
    ensures var r := NodeGroupV4(lines, start); var nb := Fields(LineAt(lines, start), 4)[3];
      forall k | 0 <= k < nb :: r.value.0[k] == Coordinates(OfLine(LineAt(lines, start + 1 + nb + k)))
  {
  }

  /**
   * A group whose header declares `|ps|` non-parametric nodes, and whose
   * second block of lines reads as `ps`, reads as `ps`.
   */
  lemma NodeGroupV4Reads(lines: seq<string>, start: nat, ps: seq<Coords>)
    requires Fields(LineAt(lines, start), 4)[2] == 0 && Fields(LineAt(lines, start), 4)[3] == |ps|
    requires forall k | 0 <= k < |ps| :: Coordinates(OfLine(LineAt(lines, start + 1 + |ps| + k))) == ps[k]
    ensures NodeGroupV4(lines, start) == Ok((ps, start + 1 + 2 * |ps|))
  {
    var r := NodeGroupV4(lines, start);
    assert r.value.0 == ps;
  }

  /** The first `n` node groups from line `start`: the nodes and the next line. */
  function NodeGroupsV4(lines: seq<string>, start: nat, n: nat): (r: Result<(seq<Coords>, nat)>)
    ensures r.Ok? ==> r.value.1 >= start
    decreases n
  {
    if n == 0 then Ok(([], start))
    else
      match NodeGroupsV4(lines, start, n - 1)
      case Err(m) => Err(m)
      case Ok((ps, pos)) =>
        match NodeGroupV4(lines, pos)
        case Err(m) => Err(m)
        case Ok((qs, next)) => Ok((ps + qs, next))
  }

  /** Once a node group fails, the section fails with its error whatever the number of groups. */
  lemma {:induction false} NodeGroupsErrStays(lines: seq<string>, start: nat, k: nat, n: nat)
    requires k <= n && NodeGroupsV4(lines, start, k).Err?
    ensures NodeGroupsV4(lines, start, n) == NodeGroupsV4(lines, start, k)
    decreases n - k
  {
    if k < n {
      NodeGroupsErrStays(lines, start, k + 1, n);
    }
  }

  /**
   * `read_node_section_v4` from line `cursor`: the section header is
   * "nb_groups nb_nodes min_tag max_tag" and is rejected unless the tags
   * run from 1 to nb_nodes; the result is the nodes, the line after
   * "$EndNodes" and the declared node count.
   */
  function NodeSectionV4(lines: seq<string>, cursor: nat): (r: Result<(seq<Coords>, nat, nat)>)
    ensures r.Ok? ==> (
      && FindLine(lines, cursor, NODES).Some?
      && NodeBodyV4(lines, FindLine(lines, cursor, NODES).value) == r)
  {
    match FindLine(lines, cursor, NODES)
    case None => Err("Cannot find the section $Nodes")
    case Some(h) => NodeBodyV4(lines, h)
  }

  /**
   * A version 4 node section whose "$Nodes" line is line `h`; it reads
   * only when the header's tags run from 1 to its node count.
   */
  function NodeBodyV4(lines: seq<string>, h: nat): (r: Result<(seq<Coords>, nat, nat)>)
    ensures r.Ok? ==> (
      var f := Fields(LineAt(lines, h + 1), 4);
      && f[2] == 1 && f[3] == f[1] == r.value.2
      && NodeGroupsV4(lines, h + 2, f[0]).Ok? && r.value.0 == NodeGroupsV4(lines, h + 2, f[0]).value.0)
  {
    var f := Fields(LineAt(lines, h + 1), 4);
    if !(f[2] == 1 && f[3] == f[1]) then Err("Non continuous node indexing is not supported for now")
    else
      match NodeGroupsV4(lines, h + 2, f[0])
      case Err(m) => Err(m)
      case Ok((ps, pos)) =>
        var next: nat := pos + 1;
        if StartsWith(LineAt(lines, pos), END_NODES) then Ok((ps, next, f[1] as nat))
        else Err("Line should starts with \"$EndNodes\"")
  }

  // ---------------------------------------------------------------------
  // Nodes by tag
  // ---------------------------------------------------------------------

  /** The point a node of the model has before any is set. */
  const ORIGIN := Coords("0", "0", "0")

  /** `n` nodes at the origin. */
  function Origins(n: nat): (r: seq<Coords>)
    ensures |r| == n && forall i | 0 <= i < n :: r[i] == ORIGIN
  {
    seq(n, _ => ORIGIN)
  }

  /** The tags of the node group whose header is line `start`: one value per line after the header. */
  function GroupTagsV4(lines: seq<string>, start: nat): seq<Index>
  {
    var nb := Fields(LineAt(lines, start), 4)[3];
    seq(nb, k requires 0 <= k < nb => Fields(LineAt(lines, start + 1 + k), 1)[0])
  }

  /** A group whose header declares `|ts|` nodes and whose tag lines hold `ts` has the tags `ts`. */
  lemma GroupTagsV4Reads(lines: seq<string>, start: nat, ts: seq<nat>)
    requires Fields(LineAt(lines, start), 4)[3] == |ts|
    requires forall k | 0 <= k < |ts| :: Fields(LineAt(lines, start + 1 + k), 1)[0] == ts[k]
    ensures GroupTagsV4(lines, start) == ts
  {
  }

  /** The tags of the first `n` node groups from line `start`: one per node read, in reading order. */
  function TagsV4(lines: seq<string>, start: nat, n: nat): seq<Index>
    requires NodeGroupsV4(lines, start, n).Ok?
    decreases n
  {
    if n == 0 then []
    else TagsV4(lines, start, n - 1) + GroupTagsV4(lines, NodeGroupsV4(lines, start, n - 1).value.1)
  }

  /** There is one tag per node read. */
  lemma {:induction false} TagsV4Count(lines: seq<string>, start: nat, n: nat)
    requires NodeGroupsV4(lines, start, n).Ok?
    ensures |TagsV4(lines, start, n)| == |NodeGroupsV4(lines, start, n).value.0|
    decreases n
  {
    if n > 0 {
      TagsV4Count(lines, start, n - 1);
    }
  }

  /** `nodes` with node `tags[i] - 1` set to `ps[i]`, for each `i` in turn. */
  function PlaceNodes(nodes: seq<Coords>, tags: seq<nat>, ps: seq<Coords>): (r: seq<Coords>)
    requires |tags| == |ps| && forall i | 0 <= i < |tags| :: 1 <= tags[i] <= |nodes|
    ensures |r| == |nodes|
    decreases |tags|
  {
    if tags == [] then nodes
    else PlaceNodes(nodes, tags[..|tags| - 1], ps[..|ps| - 1])[tags[|tags| - 1] - 1 := ps[|ps| - 1]]
  }

  /**
   * With no tag repeated, the node of tag `tags[i]` is `ps[i]`, and a node
   * no tag names keeps its point.
   */
  lemma {:induction false} PlacedNodes(nodes: seq<Coords>, tags: seq<nat>, ps: seq<Coords>)
    requires |tags| == |ps| && forall i | 0 <= i < |tags| :: 1 <= tags[i] <= |nodes|
    requires forall i, j | 0 <= i < j < |tags| :: tags[i] != tags[j]
    ensures forall i | 0 <= i < |tags| :: PlaceNodes(nodes, tags, ps)[tags[i] - 1] == ps[i]
    ensures forall x | 0 <= x < |nodes| && x + 1 !in tags :: PlaceNodes(nodes, tags, ps)[x] == nodes[x]
    decreases |tags|
  {
    if tags != [] {
      var n := |tags| - 1;
      var init := tags[..n];
      PlacedNodes(nodes, init, ps[..n]);
      forall i | 0 <= i < n ensures PlaceNodes(nodes, tags, ps)[tags[i] - 1] == ps[i] {
        assert init[i] == tags[i];
      }
      forall x | 0 <= x < |nodes| && x + 1 !in tags ensures PlaceNodes(nodes, tags, ps)[x] == nodes[x] {
        assert x + 1 !in init;
      }
    }
  }

  /**
   * The version 4 node section read by tag: node `t` of the file becomes
   * node `t - 1` of the model, the nodes no group gives stay at the
   * origin, and a tag outside 1..nb_nodes is rejected.
   */
  function TaggedNodeBodyV4(lines: seq<string>, h: nat): (r: Result<(seq<Coords>, nat, nat)>)
    ensures r.Ok? ==> NodeBodyV4(lines, h).Ok? && |r.value.0| == r.value.2
    ensures r.Ok? ==> r.value.1 == NodeBodyV4(lines, h).value.1 && r.value.2 == NodeBodyV4(lines, h).value.2
    ensures NodeBodyV4(lines, h).Err? ==> r == NodeBodyV4(lines, h)
  {
    match NodeBodyV4(lines, h)
    case Err(m) => Err(m)
    case Ok((ps, next, total)) =>
      var tags := TagsV4(lines, h + 2, Fields(LineAt(lines, h + 1), 4)[0]);
      TagsV4Count(lines, h + 2, Fields(LineAt(lines, h + 1), 4)[0]);
      if forall i | 0 <= i < |tags| :: 1 <= tags[i] <= total then
        Ok((PlaceNodes(Origins(total), tags, ps), next, total))
      else Err("Node tag out of range")
  }

  /** A node section whose groups read as `ps` with the in-range tags `ts` reads by tag as `ps` placed at `ts`. */
  lemma TaggedNodeBodyV4Reads(lines: seq<string>, h: nat, ts: seq<nat>, ps: seq<Coords>, next: nat, total: nat)
    requires NodeBodyV4(lines, h) == Ok((ps, next, total))
    requires TagsV4(lines, h + 2, Fields(LineAt(lines, h + 1), 4)[0]) == ts
    requires |ts| == |ps| && forall i | 0 <= i < |ts| :: 1 <= ts[i] <= total
    ensures TaggedNodeBodyV4(lines, h) == Ok((PlaceNodes(Origins(total), ts, ps), next, total))
  {
  }

  /**
   * `read_node_section_v4` from line `cursor`, with every node placed at
   * the node its tag names: the nodes, the line after "$EndNodes" and the
   * declared node count, which is the number of nodes.
   */
  function TaggedNodeSectionV4(lines: seq<string>, cursor: nat): (r: Result<(seq<Coords>, nat, nat)>)
    ensures r.Ok? ==> NodeSectionV4(lines, cursor).Ok? && |r.value.0| == r.value.2
    ensures r.Ok? ==> r.value.1 == NodeSectionV4(lines, cursor).value.1 && r.value.2 == NodeSectionV4(lines, cursor).value.2
    ensures NodeSectionV4(lines, cursor).Err? ==> r.Err?
  {
    match FindLine(lines, cursor, NODES)
    case None => Err("Cannot find the section $Nodes")
    case Some(h) => TaggedNodeBodyV4(lines, h)
  }

  // ---------------------------------------------------------------------
  // Elements
  // ---------------------------------------------------------------------

  /**
   * `GMSHElementFactory::create(code, physical, elementary, iss)`: an
   * unregistered code or an elementary tag of 0 throws; otherwise the node
   * ids are read from the rest of the stream into one variable.
   */
  function ElementFromStream(code: nat, physical: nat, elementary: nat, s: Stream): (r: Result<GmshElement>)
    ensures r.Err? <==> ElementOfCode(code).None? || elementary == 0
    ensures r.Ok? ==> (
      && Shaped(r.value) && r.value.kind == ElementOfCode(code).value
      && r.value.physical == physical && r.value.elementary == elementary
      && r.value.vertexIds == StreamIds(s, 0, Arity(r.value.kind)).0)
  {
    match ElementOfCode(code)
    case None => Err("unregistered Gmsh element type")
    case Some(k) =>
      if elementary == 0 then Err("GMSH tag for elementary entity (second tag) should not be null")
      else Ok(GmshElement(k, physical, elementary, StreamIds(s, 0, Arity(k)).0))
  }

  /**
   * `read_element`: "id type nb_tags physical elementary other_tags... node_ids...".
   * The id must be the expected one and there must be at least 2 tags.
   */
  function ElementLineV2(expected: nat, line: string): (r: Result<GmshElement>)
    ensures r.Ok? ==> Shaped(r.value)
  {
    var s0 := OfLine(line);
    var (id, s1) := ExtractIndex(s0, 0);
    var (code, s2) := ExtractIndex(s1, 0);
    var (nbTags, s3) := ExtractIndex(s2, 0);
    var (physical, s4) := ExtractIndex(s3, 0);
    var (elementary, s5) := ExtractIndex(s4, 0);
    if id != expected then Err("Element indices should be continuous.")
    else if nbTags < 2 then Err("Number of tags for an element should be at least 2.")
    else ElementFromStream(code, physical, elementary, SkipIndices(s5, nbTags - 2))
  }

  /**
   * A version 2 element line reads iff its id is the expected one, it has
   * at least two tags, its type is registered and its elementary tag is
   * nonzero; the element then has that type and those two tags.
   */
  lemma ElementLineV2Fields(expected: nat, line: string)
    ensures var f := Fields(line, 5); var r := ElementLineV2(expected, line);
      && (r.Err? <==> f[0] != expected || f[2] < 2 || ElementOfCode(f[1]).None? || f[4] == 0)
      && (r.Ok? ==> (
        && r.value.kind == ElementOfCode(f[1]).value
        && r.value.physical == f[3] && r.value.elementary == f[4]))
  {
    FiveFields(line);
  }

  /** The five leading fields of a line are five extractions in a row. */
  lemma FiveFields(line: string)
    ensures var s0 := OfLine(line);
      var (id, s1) := ExtractIndex(s0, 0);
      var (code, s2) := ExtractIndex(s1, 0);
      var (nbTags, s3) := ExtractIndex(s2, 0);
      var (physical, s4) := ExtractIndex(s3, 0);
      var (elementary, s5) := ExtractIndex(s4, 0);
      Fields(line, 5) == [id, code, nbTags, physical, elementary]
  {
    var s0 := OfLine(line);
    var (id, s1) := ExtractIndex(s0, 0);
    var (code, s2) := ExtractIndex(s1, 0);
    var (nbTags, s3) := ExtractIndex(s2, 0);
    var (physical, s4) := ExtractIndex(s3, 0);
    FieldsAreExtractions(line, 5);
    assert Extractions(s0, 5).0 == [id] + Extractions(s1, 4).0;
    assert Extractions(s1, 4).0 == [code] + Extractions(s2, 3).0;
    assert Extractions(s2, 3).0 == [nbTags] + Extractions(s3, 2).0;
    assert Extractions(s3, 2).0 == [physical] + Extractions(s4, 1).0;
  }

  /**
   * Every element of a version 2 section has as many node ids as its kind
   * has nodes.
   */
  lemma ElementsV2Shaped(lines: seq<string>, start: nat, nb: nat)
    ensures ReadLines(ElementLineV2, lines, start, nb).Ok? ==>
      AllShaped(ReadLines(ElementLineV2, lines, start, nb).value)
  {
    ReadLinesAll(ElementLineV2, lines, start, nb);
    var r := ReadLines(ElementLineV2, lines, start, nb);
    if r.Ok? {
      forall k | 0 <= k < nb
        ensures Shaped(r.value[k])
      {
        assert ElementLineV2(k + 1, LineAt(lines, start + k)) == Ok(r.value[k]);
      }
      AllShapedIff(r.value);
    }
  }

  /** `read_element_section_v2` from line `cursor`: the elements and the line after "$EndElements". */
  function ElementSectionV2(lines: seq<string>, cursor: nat): (r: Result<(seq<GmshElement>, nat)>)
    ensures r.Ok? ==> FindLine(lines, cursor, ELEMENTS).Some?
  {
    match FindLine(lines, cursor, ELEMENTS)
    case None => Err("Cannot find the section $Elements")
    case Some(h) => ElementBodyV2(lines, h)
  }

  /** A version 2 element section whose "$Elements" line is line `h`: the count, then the element lines. */
  function ElementBodyV2(lines: seq<string>, h: nat): (r: Result<(seq<GmshElement>, nat)>)
  {
    match Stoi(LineAt(lines, h + 1))
    case Err(m) => Err(m)
    case Ok(nb) => ElementsUntilEnd(lines, h + 2, nb)
  }

  /** `nb` version 2 element lines from line `start`, then "$EndElements"; the elements and the line after it. */
  function ElementsUntilEnd(lines: seq<string>, start: nat, nb: nat): (r: Result<(seq<GmshElement>, nat)>)
    ensures r.Ok? ==> |r.value.0| == nb && r.value.1 == start + nb + 1
    ensures r.Ok? ==> StartsWith(LineAt(lines, start + nb), END_ELEMENTS)
  {
    match ReadLines(ElementLineV2, lines, start, nb)
    case Err(m) => Err(m)
    case Ok(es) =>
      var next: nat := start + nb + 1;
      if StartsWith(LineAt(lines, start + nb), END_ELEMENTS) then Ok((es, next))
      else Err("Line should starts with \"$EndElements\"")
  }

  /** The elements before "$EndElements" have the expected shape. */
  lemma ElementsUntilEndShaped(lines: seq<string>, start: nat, nb: nat)
    ensures var r := ElementsUntilEnd(lines, start, nb); r.Ok? ==> AllShaped(r.value.0)
  {
    ElementsV2Shaped(lines, start, nb);
  }

  /** A version 2 element section holds only elements of the expected shape. */
  lemma ElementSectionV2Shaped(lines: seq<string>, cursor: nat)
    ensures var r := ElementSectionV2(lines, cursor); r.Ok? ==> AllShaped(r.value.0)
  {
    var fl := FindLine(lines, cursor, ELEMENTS);
    if fl.Some? {
      ElementBodyV2Shaped(lines, fl.value);
    }
  }

  /** The same, for the section from its "$Elements" line `h`. */
  lemma ElementBodyV2Shaped(lines: seq<string>, h: nat)
    ensures var r := ElementBodyV2(lines, h); r.Ok? ==> AllShaped(r.value.0)
  {
    var nb := Stoi(LineAt(lines, h + 1));
    if nb.Ok? {
      ElementsUntilEndShaped(lines, h + 2, nb.value);
    }
  }

  /** A version 4 element line: the element tag is read and ignored; the physical tag is 0. */
  function ElementLineV4(code: nat, entity: nat, line: string): (r: Result<GmshElement>)
    ensures r.Err? <==> ElementOfCode(code).None? || entity == 0
    ensures r.Ok? ==> Shaped(r.value) && r.value.physical == 0 && r.value.elementary == entity
  {
    ElementFromStream(code, 0, entity, ExtractIndex(OfLine(line), 0).1)
  }

  /**
   * `nb` element lines of one version 4 group, starting at line `start`:
   * they read iff the group's element type is known and its entity tag is
   * nonzero (or there are none).
   */
  function ElementLinesV4(lines: seq<string>, start: nat, code: nat, entity: nat, nb: nat): (r: Result<seq<GmshElement>>)
    ensures r.Ok? <==> nb == 0 || (ElementOfCode(code).Some? && entity != 0)
    ensures r.Ok? ==> |r.value| == nb
    decreases nb
  {
    if nb == 0 then Ok([])
    else
      match ElementLinesV4(lines, start, code, entity, nb - 1)
      case Err(m) => Err(m)
      case Ok(es) =>
        match ElementLineV4(code, entity, LineAt(lines, start + nb - 1))
        case Err(m) => Err(m)
        case Ok(e) => Ok(es + [e])
  }

  /** The lines of a version 4 group hold only elements of the expected shape. */
  lemma {:induction false} ElementLinesV4Shaped(lines: seq<string>, start: nat, code: nat, entity: nat, nb: nat)
    ensures var r := ElementLinesV4(lines, start, code, entity, nb); r.Ok? ==> AllShaped(r.value)
    decreases nb
  {
    if nb > 0 {
      ElementLinesV4Shaped(lines, start, code, entity, nb - 1);
      var r := ElementLinesV4(lines, start, code, entity, nb);
      if r.Ok? {
        assert r.value[..nb - 1] == ElementLinesV4(lines, start, code, entity, nb - 1).value;
      }
    }
  }

  /** `read_element_group`: a header "dim entity type nb", then `nb` element lines. */
  function ElementGroupV4(lines: seq<string>, start: nat): (r: Result<(seq<GmshElement>, nat)>)
    ensures r.Ok? ==> r.value.1 == start + 1 + Fields(LineAt(lines, start), 4)[3] as nat
  {
    var h := Fields(LineAt(lines, start), 4);
    match ElementLinesV4(lines, start + 1, h[2], h[1], h[3])
    case Err(m) => Err(m)
    case Ok(es) =>
      var next: nat := start + 1 + h[3] as nat;
      Ok((es, next))
  }

  /** The first `n` element groups from line `start`: the elements and the next line. */
  function ElementGroupsV4(lines: seq<string>, start: nat, n: nat): (r: Result<(seq<GmshElement>, nat)>)
    decreases n
  {
    if n == 0 then Ok(([], start))
    else
      match ElementGroupsV4(lines, start, n - 1)
      case Err(m) => Err(m)
      case Ok((es, pos)) =>
        match ElementGroupV4(lines, pos)
        case Err(m) => Err(m)
        case Ok((fs, next)) => Ok((es + fs, next))
  }

  /** One version 4 group holds only elements of the expected shape. */
  lemma ElementGroupV4Shaped(lines: seq<string>, start: nat)
    ensures var g := ElementGroupV4(lines, start); g.Ok? ==> AllShaped(g.value.0)
  {
    var h := Fields(LineAt(lines, start), 4);
    ElementLinesV4Shaped(lines, start + 1, h[2], h[1], h[3]);
  }

  /** The groups of a version 4 section hold only elements of the expected shape. */
  lemma {:induction false} ElementGroupsV4Shaped(lines: seq<string>, start: nat, n: nat)
    ensures var r := ElementGroupsV4(lines, start, n); r.Ok? ==> AllShaped(r.value.0)
    decreases n
  {
    if n > 0 {
      ElementGroupsV4Shaped(lines, start, n - 1);
      var prev := ElementGroupsV4(lines, start, n - 1);
      if prev.Ok? {
        var (es, pos) := prev.value;
        assert AllShaped(es);
        ElementGroupV4Shaped(lines, pos);
        var g := ElementGroupV4(lines, pos);
        if g.Ok? {
          var fs := g.value.0;
          assert AllShaped(fs);
          AllShapedAppend(es, fs);
        }
      }
    }
  }

  /**
   * `read_element_section_v4` from line `cursor`: rejected unless the
   * element tags run from 1 to the declared total.
   */
  function ElementSectionV4(lines: seq<string>, cursor: nat): (r: Result<(seq<GmshElement>, nat)>)
    ensures r.Ok? ==> (
      && FindLine(lines, cursor, ELEMENTS).Some?
      && ElementBodyV4(lines, FindLine(lines, cursor, ELEMENTS).value) == r)
  {
    match FindLine(lines, cursor, ELEMENTS)
    case None => Err("Cannot find the section $Elements")
    case Some(h) => ElementBodyV4(lines, h)
  }

  /**
   * A version 4 element section whose "$Elements" line is line `h`; it
   * reads only when the header's tags run from 1 to its element count.
   */
  function ElementBodyV4(lines: seq<string>, h: nat): (r: Result<(seq<GmshElement>, nat)>)
    ensures r.Ok? ==> (
      var f := Fields(LineAt(lines, h + 1), 4);
      f[2] == 1 && f[3] == f[1])
  {
    var f := Fields(LineAt(lines, h + 1), 4);
    if !(f[2] == 1 && f[3] == f[1]) then Err("Non continuous element indexing is not supported for now")
    else
      match ElementGroupsV4(lines, h + 2, f[0])
      case Err(m) => Err(m)
      case Ok((es, pos)) =>
        var next: nat := pos + 1;
        if StartsWith(LineAt(lines, pos), END_ELEMENTS) then Ok((es, next))
        else Err("Line should starts with \"$EndElements\"")
  }

  /** A version 4 element section holds only elements of the expected shape. */
  lemma ElementSectionV4Shaped(lines: seq<string>, cursor: nat)
    ensures var r := ElementSectionV4(lines, cursor); r.Ok? ==> AllShaped(r.value.0)
  {
    var fl := FindLine(lines, cursor, ELEMENTS);
    if fl.Some? {
      var f := Fields(LineAt(lines, fl.value + 1), 4);
      ElementGroupsV4Shaped(lines, fl.value + 2, f[0]);
    }
  }

  // ---------------------------------------------------------------------
  // Entities (version 4)
  // ---------------------------------------------------------------------

  /** `n` extractions into fresh `signed_index_t` variables, each taken by absolute value. */
  function BoundaryIds(s: Stream, n: nat): (r: seq<nat>)
    ensures |r| == n
    decreases n
  {
    if n == 0 then []
    else
      var (v, s1) := ExtractSigned(s, 0);
      [if v < 0 then -(v as int) else v as int] + BoundaryIds(s1, n - 1)
  }

  /**
   * A curve, surface or volume entity line: "tag minx miny minz maxx maxy
   * maxz nb_physical physical_tags... nb_bounding bounding_tags...". The
   * result is the tag and the bounding tags without their orientation sign.
   */
  function EntityLine(line: string): (r: (Index, seq<nat>))
    ensures r.0 == Fields(line, 1)[0]
  {
    var s0 := OfLine(line);
    var (id, s1) := ExtractIndex(s0, 0);
    assert Fields(line, 1) == [id];
    var s2 := SkipValues(s1, 6);
    var (nbPhysical, s3) := ExtractIndex(s2, 0);
    var s4 := SkipIndices(s3, nbPhysical);
    var (nbBoundaries, s5) := ExtractIndex(s4, 0);
    (id, BoundaryIds(s5, nbBoundaries))
  }

  /**
   * The model and the tag map agree: every recorded index names an
   * existing component, every component is well formed and every boundary
   * relation names existing components.
   */
  predicate Consistent(b: BRep, idMap: IdMap)
  {
    IdMapValid(b, idMap) && AllWellFormed(b) && RelationsValid(b)
  }

  /**
   * `create_corners` for one line: a new corner, recorded under its tag
   * (an earlier entry with the same tag is overwritten).
   */
  function WithCorner(b: BRep, idMap: IdMap, id: nat): (r: (BRep, IdMap))
  {
    (WithComponents(b, Corner, b.corners + [EmptyComponent]).(boundaries := b.boundaries),
     idMap[GmshElementID(Corner, id) := |b.corners|])
  }

  /** A new corner keeps the model consistent, whatever its tag. */
  lemma WithCornerConsistent(b: BRep, idMap: IdMap, id: nat)
    requires Consistent(b, idMap)
    ensures Consistent(WithCorner(b, idMap, id).0, WithCorner(b, idMap, id).1)
  {
    AddEmptyWellFormed(b, Corner, b.boundaries);
    var r := WithCorner(b, idMap, id);
    forall key | key in r.1
      ensures r.1[key] < |Components(r.0, key.kind)|
    {
      if key != GmshElementID(Corner, id) {
        assert key in idMap;
      }
    }
  }

  /** The boundary type of each entity type the entity section reads with boundaries. */
  function BoundaryKind(kind: ComponentType): ComponentType
  {
    match kind
    case Corner => Corner
    case Line => Corner
    case Surface => Line
    case Block => Surface
  }

  /** Whether every bounding tag of `bounds` is recorded for type `bk`. */
  predicate AllKnown(idMap: IdMap, bk: ComponentType, bounds: seq<nat>)
    decreases |bounds|
  {
    |bounds| == 0 || (AllKnown(idMap, bk, bounds[..|bounds| - 1]) && GmshElementID(bk, bounds[|bounds| - 1]) in idMap)
  }

  /** `AllKnown` holds exactly when no lookup of `at` would throw. */
  lemma {:induction false} AllKnownIff(idMap: IdMap, bk: ComponentType, bounds: seq<nat>)
    ensures AllKnown(idMap, bk, bounds) <==> forall k | 0 <= k < |bounds| :: GmshElementID(bk, bounds[k]) in idMap
    decreases |bounds|
  {
    if |bounds| > 0 {
      var prefix := bounds[..|bounds| - 1];
      AllKnownIff(idMap, bk, prefix);
      assert forall k | 0 <= k < |prefix| :: prefix[k] == bounds[k];
    }
  }

  /**
   * The entity of one line: a new component of type `kind` recorded under
   * `id`, related to each of its bounding entities; the first bounding
   * tag that is not recorded throws.
   */
  function AddEntity(b: BRep, idMap: IdMap, kind: ComponentType, id: nat, bounds: seq<nat>): (r: Result<(BRep, IdMap)>)
  {
    var c := |Components(b, kind)|;
    var bk := BoundaryKind(kind);
    if !AllKnown(idMap, bk, bounds) then Err(KEY_NOT_FOUND)
    else
      var b1 := WithComponents(b, kind, Components(b, kind) + [EmptyComponent]);
      Ok((b1.(boundaries := b.boundaries + BoundaryRelations(idMap, kind, c, bounds)), idMap[GmshElementID(kind, id) := c]))
  }

  /** An entity line fails exactly when one of its bounding tags is not recorded. */
  lemma AddEntityFails(b: BRep, idMap: IdMap, kind: ComponentType, id: nat, bounds: seq<nat>)
    ensures AddEntity(b, idMap, kind, id, bounds).Err?
      <==> exists k | 0 <= k < |bounds| :: GmshElementID(BoundaryKind(kind), bounds[k]) !in idMap
  {
    AllKnownIff(idMap, BoundaryKind(kind), bounds);
  }

  /** The relations from the bounding entities `bounds` (all recorded in `idMap`) to component `c` of type `kind`. */
  function BoundaryRelations(idMap: IdMap, kind: ComponentType, c: nat, bounds: seq<nat>): (r: set<Relation>)
    requires AllKnown(idMap, BoundaryKind(kind), bounds)
    decreases |bounds|
  {
    if |bounds| == 0 then {}
    else
      var bk := BoundaryKind(kind);
      BoundaryRelations(idMap, kind, c, bounds[..|bounds| - 1])
        + {(ComponentId(bk, idMap[GmshElementID(bk, bounds[|bounds| - 1])]), ComponentId(kind, c))}
  }

  /** The relations are exactly one per bounding tag, from the entity recorded under it. */
  lemma {:induction false} BoundaryRelationsMembers(idMap: IdMap, kind: ComponentType, c: nat, bounds: seq<nat>, x: Relation)
    requires AllKnown(idMap, BoundaryKind(kind), bounds)
    ensures x in BoundaryRelations(idMap, kind, c, bounds) <==>
      exists k | 0 <= k < |bounds| && GmshElementID(BoundaryKind(kind), bounds[k]) in idMap ::
      x == (ComponentId(BoundaryKind(kind), idMap[GmshElementID(BoundaryKind(kind), bounds[k])]), ComponentId(kind, c))
    decreases |bounds|
  {
    AllKnownIff(idMap, BoundaryKind(kind), bounds);
    if |bounds| > 0 {
      var prefix := bounds[..|bounds| - 1];
      BoundaryRelationsMembers(idMap, kind, c, prefix, x);
      assert forall k | 0 <= k < |prefix| :: prefix[k] == bounds[k];
    }
  }

  /** Relations to an existing component from recorded entities name existing components. */
  lemma {:induction false} BoundaryRelationsValid(b: BRep, idMap: IdMap, kind: ComponentType, c: nat, bounds: seq<nat>)
    requires AllKnown(idMap, BoundaryKind(kind), bounds)
    requires IdMapValid(b, idMap) && c < |Components(b, kind)|
    ensures forall x | x in BoundaryRelations(idMap, kind, c, bounds) ::
      x.0.index < |Components(b, x.0.kind)| && x.1.index < |Components(b, x.1.kind)|
    decreases |bounds|
  {
    if |bounds| > 0 {
      BoundaryRelationsValid(b, idMap, kind, c, bounds[..|bounds| - 1]);
      var key := GmshElementID(BoundaryKind(kind), bounds[|bounds| - 1]);
      assert idMap[key] < |Components(b, key.kind)|;
    }
  }

  /** An entity that is added keeps the model consistent. */
  lemma AddEntityConsistent(b: BRep, idMap: IdMap, kind: ComponentType, id: nat, bounds: seq<nat>)
    requires Consistent(b, idMap) && AddEntity(b, idMap, kind, id, bounds).Ok?
    ensures var r := AddEntity(b, idMap, kind, id, bounds).value; Consistent(r.0, r.1)
  {
    var r := AddEntity(b, idMap, kind, id, bounds).value;
    var c := |Components(b, kind)|;
    AddEmptyWellFormed(b, kind, r.0.boundaries);
    forall key | key in idMap
      ensures idMap[key] < |Components(r.0, key.kind)|
    {
    }
    BoundaryRelationsValid(r.0, idMap, kind, c, bounds);
    forall key | key in r.1
      ensures r.1[key] < |Components(r.0, key.kind)|
    {
      if key != GmshElementID(kind, id) {
        assert key in idMap;
      }
    }
  }

  /** The tags of `n` corner lines from line `start`. */
  function CornerIds(lines: seq<string>, start: nat, n: nat): (r: seq<nat>)
    ensures |r| == n
  {
    if n == 0 then [] else CornerIds(lines, start, n - 1) + [Fields(LineAt(lines, start + n - 1), 1)[0]]
  }

  /** The tags and bounding tags of `n` entity lines from line `start`. */
  function EntityLines(lines: seq<string>, start: nat, n: nat): (r: seq<(Index, seq<nat>)>)
    ensures |r| == n
  {
    if n == 0 then [] else EntityLines(lines, start, n - 1) + [EntityLine(LineAt(lines, start + n - 1))]
  }

  /** One more entity line. */
  lemma EntityLinesSnoc(lines: seq<string>, start: nat, k: nat)
    ensures EntityLines(lines, start, k + 1) == EntityLines(lines, start, k) + [EntityLine(LineAt(lines, start + k))]
  {
  }

  /** One more corner line. */
  lemma CornerIdsSnoc(lines: seq<string>, start: nat, k: nat)
    ensures CornerIds(lines, start, k + 1) == CornerIds(lines, start, k) + [Fields(LineAt(lines, start + k), 1)[0]]
  {
  }

  /** `create_corners`: one new corner per tag of `ids`, in order. */
  function CornersFrom(b: BRep, idMap: IdMap, ids: seq<nat>): (r: (BRep, IdMap))
    ensures |r.0.corners| == |b.corners| + |ids|
    ensures r.0.nbUniqueVertices == b.nbUniqueVertices
    decreases |ids|
  {
    if |ids| == 0 then (b, idMap)
    else
      var (b1, m1) := CornersFrom(b, idMap, ids[..|ids| - 1]);
      WithCorner(b1, m1, ids[|ids| - 1])
  }

  /** The corners keep the model consistent. */
  lemma {:induction false} CornersFromConsistent(b: BRep, idMap: IdMap, ids: seq<nat>)
    requires Consistent(b, idMap)
    ensures Consistent(CornersFrom(b, idMap, ids).0, CornersFrom(b, idMap, ids).1)
    decreases |ids|
  {
    if |ids| > 0 {
      CornersFromConsistent(b, idMap, ids[..|ids| - 1]);
      var (b1, m1) := CornersFrom(b, idMap, ids[..|ids| - 1]);
      WithCornerConsistent(b1, m1, ids[|ids| - 1]);
    }
  }

  /** `create_lines`, `create_surfaces` or `create_blocks`: one new component per entry of `es`, in order. */
  function EntitiesFrom(b: BRep, idMap: IdMap, kind: ComponentType, es: seq<(Index, seq<nat>)>)
    : (r: Result<(BRep, IdMap)>)
    ensures r.Ok? ==> |Components(r.value.0, kind)| == |Components(b, kind)| + |es|
    ensures r.Ok? ==> r.value.0.nbUniqueVertices == b.nbUniqueVertices
    decreases |es|
  {
    if |es| == 0 then Ok((b, idMap))
    else
      match EntitiesFrom(b, idMap, kind, es[..|es| - 1])
      case Err(m) => Err(m)
      case Ok((b1, m1)) =>
        var e := es[|es| - 1];
        AddEntity(b1, m1, kind, e.0, e.1)
  }

  /** The entities, when all their bounding entities are found, keep the model consistent. */
  lemma {:induction false} EntitiesFromConsistent(b: BRep, idMap: IdMap, kind: ComponentType, es: seq<(Index, seq<nat>)>)
    requires Consistent(b, idMap) && EntitiesFrom(b, idMap, kind, es).Ok?
    ensures var r := EntitiesFrom(b, idMap, kind, es).value; Consistent(r.0, r.1)
    decreases |es|
  {
    if |es| > 0 {
      var prefix := es[..|es| - 1];
      EntitiesFromConsistent(b, idMap, kind, prefix);
      var r1 := EntitiesFrom(b, idMap, kind, prefix).value;
      var e := es[|es| - 1];
      AddEntityConsistent(r1.0, r1.1, kind, e.0, e.1);
    }
  }

  /** One more entity line of a list read so far. */
  lemma EntitiesFromStep(b: BRep, idMap: IdMap, kind: ComponentType, es: seq<(Index, seq<nat>)>, k: nat)
    requires k < |es|
    ensures var p := EntitiesFrom(b, idMap, kind, es[..k]);
      EntitiesFrom(b, idMap, kind, es[..k + 1])
        == if p.Err? then Err(p.message) else AddEntity(p.value.0, p.value.1, kind, es[k].0, es[k].1)
  {
    assert es[..k + 1][..k] == es[..k];
  }

  /** Once an entity misses a bounding entity, the entities after it do not recover. */
  lemma {:induction false} EntitiesFromErrStays(b: BRep, idMap: IdMap, kind: ComponentType, es: seq<(Index, seq<nat>)>, k: nat)
    requires k <= |es| && EntitiesFrom(b, idMap, kind, es[..k]).Err?
    ensures EntitiesFrom(b, idMap, kind, es) == EntitiesFrom(b, idMap, kind, es[..k])
    decreases |es|
  {
    if k < |es| {
      var prefix := es[..|es| - 1];
      assert prefix[..k] == es[..k];
      EntitiesFromErrStays(b, idMap, kind, prefix, k);
    } else {
      assert es[..k] == es;
    }
  }

  /** One more corner line. */
  lemma CornersFromSnoc(b: BRep, idMap: IdMap, ids: seq<nat>, id: nat)
    ensures var p := CornersFrom(b, idMap, ids);
      CornersFrom(b, idMap, ids + [id]) == WithCorner(p.0, p.1, id)
  {
    assert (ids + [id])[..|ids|] == ids;
  }

  /**
   * `read_entity_section` from line `cursor`: the header "nb_corners
   * nb_lines nb_surfaces nb_blocks", the corner lines, then the curve,
   * surface and volume lines, then "$EndEntities"; the model, the map and
   * the line after "$EndEntities".
   */
  function EntitySection(lines: seq<string>, cursor: nat, b: BRep, idMap: IdMap): (r: Result<(BRep, IdMap, nat)>)
    ensures r.Ok? ==> FindLine(lines, cursor, ENTITIES).Some?
  {
    EntitiesAfter(lines, FindLine(lines, cursor, ENTITIES), b, idMap)
  }

  /** The entity section whose "$Entities" line is `h`, if there is one. */
  function EntitiesAfter(lines: seq<string>, h: Option<nat>, b: BRep, idMap: IdMap): (r: Result<(BRep, IdMap, nat)>)
    ensures r.Ok? ==> h.Some?
  {
    match h
    case None => Err("Cannot find the section $Entities")
    case Some(h) => EntityBody(lines, h + 1, b, idMap)
  }

  /**
   * The entity section from its header line `h` "nb_corners nb_lines
   * nb_surfaces nb_blocks": what its lines say, then built into the model.
   */
  function EntityBody(lines: seq<string>, h: nat, b: BRep, idMap: IdMap): (r: Result<(BRep, IdMap, nat)>)
  {
    BuildEntities(b, idMap, ParseEntities(lines, h))
  }

  /**
   * What the lines of an entity section say: the corner tags, the curve,
   * surface and volume lines, the line after the last of them and whether
   * that line starts with "$EndEntities".
   */
  datatype EntityListing = EntityListing(
    cornerIds: seq<nat>,
    groups: seq<(ComponentType, seq<(Index, seq<nat>)>)>,
    end: nat,
    closed: bool)

  /** The listing from the header line `h`: each run starts where the previous one ends. */
  function ParseEntities(lines: seq<string>, h: nat): (t: EntityListing)
    ensures NoCornerGroup(t.groups)
  {
    var f := Fields(LineAt(lines, h), 4);
    var (groups, end) := RunLines(lines, h + 1 + f[0], SectionRuns(f[1], f[2], f[3]));
    EntityListing(CornerIds(lines, h + 1, f[0]), groups, end, StartsWith(LineAt(lines, end), END_ENTITIES))
  }

  /**
   * The corners, then the other entities, run after run; the first missing
   * bounding entity throws, and "$EndEntities" is checked after the
   * entities are built.
   */
  function BuildEntities(b: BRep, idMap: IdMap, t: EntityListing): (r: Result<(BRep, IdMap, nat)>)
  {
    var c := CornersFrom(b, idMap, t.cornerIds);
    var next: nat := t.end + 1;
    match BuildRuns(c.0, c.1, t.groups)
    case Err(m) => Err(m)
    case Ok((b3, m3)) =>
      if t.closed then Ok((b3, m3, next))
      else Err("Line should starts with \"$EndEntities\"")
  }

  /** No group creates corners: corners are read without bounding entities. */
  ghost predicate NoCornerGroup(groups: seq<(ComponentType, seq<(Index, seq<nat>)>)>)
  {
    forall i | 0 <= i < |groups| :: groups[i].0 != Corner
  }

  /** The curves, then the surfaces, then the volumes. */
  function SectionRuns(nl: nat, ns: nat, nv: nat): (r: seq<(ComponentType, nat)>)
  {
    [(Line, nl), (Surface, ns), (Block, nv)]
  }

  /**
   * The entity lines of runs of `(kind, count)` lines from line `p`, one
   * run after the other, and the line after the last run.
   */
  function RunLines(lines: seq<string>, p: nat, runs: seq<(ComponentType, nat)>)
    : (r: (seq<(ComponentType, seq<(Index, seq<nat>)>)>, nat))
    ensures |r.0| == |runs|
    ensures forall i | 0 <= i < |runs| :: r.0[i].0 == runs[i].0
    decreases |runs|
  {
    if runs == [] then ([], p)
    else
      var (groups, end) := RunLines(lines, p + runs[0].1, runs[1..]);
      ([(runs[0].0, EntityLines(lines, p, runs[0].1))] + groups, end)
  }

  /** The entities of each group in turn; the first missing bounding entity throws. */
  function BuildRuns(b: BRep, idMap: IdMap, groups: seq<(ComponentType, seq<(Index, seq<nat>)>)>)
    : (r: Result<(BRep, IdMap)>)
    decreases |groups|
  {
    if groups == [] then Ok((b, idMap))
    else
      match EntitiesFrom(b, idMap, groups[0].0, groups[0].1)
      case Err(m) => Err(m)
      case Ok((b1, m1)) => BuildRuns(b1, m1, groups[1..])
  }

  /** The groups keep the model consistent and add no unique vertex. */
  lemma {:induction false} BuildRunsConsistent(b: BRep, idMap: IdMap, groups: seq<(ComponentType, seq<(Index, seq<nat>)>)>)
    requires Consistent(b, idMap) && BuildRuns(b, idMap, groups).Ok?
    ensures var r := BuildRuns(b, idMap, groups).value;
      Consistent(r.0, r.1) && r.0.nbUniqueVertices == b.nbUniqueVertices
    decreases |groups|
  {
    if groups != [] {
      EntitiesFromConsistent(b, idMap, groups[0].0, groups[0].1);
      var r1 := EntitiesFrom(b, idMap, groups[0].0, groups[0].1).value;
      BuildRunsConsistent(r1.0, r1.1, groups[1..]);
    }
  }

  /** Building a listing keeps the model consistent and adds no unique vertex. */
  lemma BuildEntitiesConsistent(b: BRep, idMap: IdMap, t: EntityListing)
    requires Consistent(b, idMap) && BuildEntities(b, idMap, t).Ok?
    ensures var r := BuildEntities(b, idMap, t).value;
      Consistent(r.0, r.1) && r.0.nbUniqueVertices == b.nbUniqueVertices
  {
    var c := CornersFrom(b, idMap, t.cornerIds);
    CornersFromConsistent(b, idMap, t.cornerIds);
    BuildRunsConsistent(c.0, c.1, t.groups);
  }

  /**
   * The entities of a section keep the model consistent and add no unique
   * vertex: every tag recorded names a component, every relation names
   * components.
   */
  lemma EntityBodyConsistent(lines: seq<string>, h: nat, b: BRep, idMap: IdMap)
    requires Consistent(b, idMap) && EntityBody(lines, h, b, idMap).Ok?
    ensures var r := EntityBody(lines, h, b, idMap).value;
      Consistent(r.0, r.1) && r.0.nbUniqueVertices == b.nbUniqueVertices
  {
    BuildEntitiesConsistent(b, idMap, ParseEntities(lines, h));
  }

  /** The same for the section found at header line `h`, if any. */
  lemma EntitiesAfterConsistent(lines: seq<string>, h: Option<nat>, b: BRep, idMap: IdMap)
    requires Consistent(b, idMap) && EntitiesAfter(lines, h, b, idMap).Ok?
    ensures var r := EntitiesAfter(lines, h, b, idMap).value;
      Consistent(r.0, r.1) && r.0.nbUniqueVertices == b.nbUniqueVertices
  {
    EntityBodyConsistent(lines, h.value + 1, b, idMap);
  }

  /** The same for the section searched from `cursor`. */
  lemma EntitySectionConsistent(lines: seq<string>, cursor: nat, b: BRep, idMap: IdMap)
    requires Consistent(b, idMap) && EntitySection(lines, cursor, b, idMap).Ok?
    ensures var r := EntitySection(lines, cursor, b, idMap).value;
      Consistent(r.0, r.1) && r.0.nbUniqueVertices == b.nbUniqueVertices
  {
    EntitiesAfterConsistent(lines, FindLine(lines, cursor, ENTITIES), b, idMap);
  }
}
