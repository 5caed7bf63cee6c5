/**
 * Node tags in the MSH 4.1 round trip. The writer exports the nodes
 * component by component in first-use order, each with the tag "unique
 * vertex plus one"; the version 4 reader of src/geode/io/model/msh_input.cpp
 * skips the tag lines and numbers the nodes in reading order. Here: what
 * the tag lines read back as, what the scene's points are in terms of the
 * tags, the reader as written pairing unique vertex `u` with the `u`-th node
 * written (which need not be the node of `u`), and the tag-placing reader
 * `TaggedNodeBodyV4` giving every used unique vertex its own point back.
 */
module MshNodeTags {
  import opened Wrappers
  import opened Text
  import opened Streams
  import opened BRepModel
  import opened MshCommon
  import opened MshLines
  import opened MshExport
  import opened MshOutput
  import opened MshRoundTrip

  /** The tags component `id` writes with the flags `flags`: the unique vertices of its fresh vertices, plus one. */
  function FreshTags(s: Scene, id: ComponentId, flags: seq<bool>): (r: seq<nat>)
    requires Placed(s, id) && |flags| == s.brep.nbUniqueVertices
  {
    var u := ComponentAt(s.brep, id).uniqueOf;
    var vs := Fresh(u, flags, |u|);
    seq(|vs|, j requires 0 <= j < |vs| => ToFileId(u[vs[j]]))
  }

  /** The tags the components `cs` write, in the order they are written. */
  function WrittenTags(s: Scene, cs: seq<ComponentId>): seq<nat>
    requires AllPlacedIn(s, cs)
  {
    if cs == [] then []
    else
      var init := cs[..|cs| - 1];
      assert AllPlacedIn(s, init) by {
        forall k | 0 <= k < |init| ensures Placed(s, init[k]) {
          assert init[k] == cs[k];
        }
      }
      WrittenTags(s, init) + FreshTags(s, cs[|cs| - 1], Flags(UniqueLists(s.brep, init), s.brep.nbUniqueVertices))
  }

  /** A tag line holds one value, which reads back. */
  lemma {:induction false} TagLineReadsBack(x: nat)
    requires x < INDEX_LIMIT
    ensures Fields(NatToString(x), 1)[0] == x
  {
    FieldsOfSpaced([x], 1);
    assert Spaced([x]) == NatToString(x);
  }

  /** Lines holding a node group's header and tag lines: the header is line `p`, tag line `k` is line `p + 1 + k`. */
  lemma {:induction false} TagLinesAt(lines: seq<string>, p: nat, header: string, tags: seq<string>, coords: seq<string>)
    requires LinesAt(lines, p, [header] + tags + coords)
    ensures LineAt(lines, p) == header && LinesAt(lines, p + 1, tags)
  {
    LinesAtSplit3(lines, p, [header], tags, coords, p + 1, p + 1 + |tags|);
    FirstLine(lines, p, [header]);
  }

  /** A written node block's tag lines read back as the tags it wrote. */
  lemma {:induction false} BlockTagsReadBack(s: Scene, id: ComponentId, flags: seq<bool>, lines: seq<string>, p: nat)
    requires Fits(s, id) && |flags| == s.brep.nbUniqueVertices < INDEX_LIMIT
    requires LinesAt(lines, p, NodeBlock(s, id, flags))
    ensures GroupTagsV4(lines, p) == FreshTags(s, id, flags)
  {
    var u := ComponentAt(s.brep, id).uniqueOf;
    var vs := Fresh(u, flags, |u|);
    var xs := [Dimension(id.kind), id.index + 1, 0, |vs|];
    var tags := TagLines(u, vs);
    NodeBlockParts(s, id, flags, Spaced(xs), vs);
    TagLinesAt(lines, p, Spaced(xs), tags, CoordLines(s.points[id], vs));
    HeaderFields(lines, p, xs);
    var ts := FreshTags(s, id, flags);
    forall k | 0 <= k < |vs|
      ensures Fields(LineAt(lines, p + 1 + k), 1)[0] == ts[k]
    {
      LineOf(lines, p + 1, tags, k);
      TagLineReadsBack(ToFileId(u[vs[k]]));
    }
    GroupTagsV4Reads(lines, p, ts);
  }

  /** One more node group after `m` groups: its tags follow theirs in the first `n = m + 1` groups. */
  lemma {:induction false} TagsStep(lines: seq<string>, p: nat, m: nat, n: nat, ts: seq<nat>, pos: nat, gs: seq<nat>, all: seq<nat>)
    requires n == m + 1 && NodeGroupsV4(lines, p, n).Ok? && NodeGroupsV4(lines, p, m).Ok?
    requires TagsV4(lines, p, m) == ts && NodeGroupsV4(lines, p, m).value.1 == pos
    requires GroupTagsV4(lines, pos) == gs && all == ts + gs
    ensures TagsV4(lines, p, n) == all
  {
    assert n - 1 == m;
  }

  /** Writing one more component appends its tags. */
  lemma {:induction false} WrittenTagsSnoc(s: Scene, cs: seq<ComponentId>, flags: seq<bool>)
    requires AllPlacedIn(s, cs) && cs != [] && AllPlacedIn(s, cs[..|cs| - 1])
    requires flags == Flags(UniqueLists(s.brep, cs[..|cs| - 1]), s.brep.nbUniqueVertices)
    ensures WrittenTags(s, cs) == WrittenTags(s, cs[..|cs| - 1]) + FreshTags(s, cs[|cs| - 1], flags)
  {
  }

  /** The node blocks of `cs` read back with the tags they wrote. */
  lemma {:induction false} TagBlocksReadBack(s: Scene, cs: seq<ComponentId>, lines: seq<string>, p: nat)
    requires AllFitIn(s, cs) && s.brep.nbUniqueVertices < INDEX_LIMIT
    requires LinesAt(lines, p, NodeBlocks(s, cs))
    ensures NodeGroupsV4(lines, p, |cs|).Ok? && TagsV4(lines, p, |cs|) == WrittenTags(s, cs)
    decreases |cs|
  {
    NodeBlocksReadBack(s, cs, lines, p);
    if cs != [] {
      var init := cs[..|cs| - 1];
      var last := cs[|cs| - 1];
      var flags := Flags(UniqueLists(s.brep, init), s.brep.nbUniqueVertices);
      FitInit(s, cs);
      var pos := p + |NodeBlocks(s, init)|;
      BlocksSplit(s, cs, init, last, flags, lines, p, pos);
      TagBlocksReadBack(s, init, lines, p);
      NodeBlocksReadBack(s, init, lines, p);
      BlockTagsReadBack(s, last, flags, lines, pos);
      WrittenTagsSnoc(s, cs, flags);
      TagsStep(lines, p, |init|, |cs|, WrittenTags(s, init), pos, FreshTags(s, last, flags), WrittenTags(s, cs));
    }
  }

  /** The tags a component writes are the unique vertices it exports, plus one. */
  lemma {:induction false} FreshTagsExported(s: Scene, id: ComponentId, flags: seq<bool>)
    requires Placed(s, id) && |flags| == s.brep.nbUniqueVertices
    ensures var u := ComponentAt(s.brep, id).uniqueOf;
      |FreshTags(s, id, flags)| == |FreshUids(u, flags)|
      && forall j | 0 <= j < |FreshUids(u, flags)| :: FreshTags(s, id, flags)[j] == ToFileId(FreshUids(u, flags)[j])
  {
  }

  /** Visiting one more component appends its list of unique vertices. */
  lemma {:induction false} UniqueListsSnoc(b: BRep, cs: seq<ComponentId>)
    requires cs != [] && forall k | 0 <= k < |cs| :: Exists(b, cs[k])
    ensures UniqueLists(b, cs) == UniqueLists(b, cs[..|cs| - 1]) + [ComponentAt(b, cs[|cs| - 1]).uniqueOf]
  {
  }

  /** The written tags are the exported unique vertices, in export order, plus one. */
  lemma {:induction false} WrittenTagsExported(s: Scene, cs: seq<ComponentId>)
    requires AllPlacedIn(s, cs)
    ensures Bounded(UniqueLists(s.brep, cs), s.brep.nbUniqueVertices)
    ensures var e := Exported(UniqueLists(s.brep, cs), s.brep.nbUniqueVertices);
      |WrittenTags(s, cs)| == |e| && forall j | 0 <= j < |e| :: WrittenTags(s, cs)[j] == ToFileId(e[j])
    decreases |cs|
  {
    var nb := s.brep.nbUniqueVertices;
    PlacedBounded(s, cs);
    if cs != [] {
      var init := cs[..|cs| - 1];
      var last := cs[|cs| - 1];
      var u := ComponentAt(s.brep, last).uniqueOf;
      assert AllPlacedIn(s, init) by {
        forall k | 0 <= k < |init| ensures Placed(s, init[k]) {
          assert init[k] == cs[k];
        }
      }
      var flags := Flags(UniqueLists(s.brep, init), nb);
      WrittenTagsExported(s, init);
      UniqueListsSnoc(s.brep, cs);
      ExportedSnoc(UniqueLists(s.brep, init), u, nb);
      WrittenTagsSnoc(s, cs, flags);
      FreshTagsExported(s, last, flags);
    }
  }

  /** Every written tag names a unique vertex of the model. */
  lemma {:induction false} WrittenTagsInRange(s: Scene, cs: seq<ComponentId>)
    requires AllPlacedIn(s, cs)
    ensures forall j | 0 <= j < |WrittenTags(s, cs)| :: 1 <= WrittenTags(s, cs)[j] <= s.brep.nbUniqueVertices
  {
    WrittenTagsExported(s, cs);
  }

  /** When no component repeats a unique vertex, no tag is written twice. */
  lemma {:induction false} WrittenTagsDistinct(s: Scene, cs: seq<ComponentId>)
    requires AllPlacedIn(s, cs) && AllDistinct(UniqueLists(s.brep, cs))
    ensures forall i, j | 0 <= i < j < |WrittenTags(s, cs)| :: WrittenTags(s, cs)[i] != WrittenTags(s, cs)[j]
  {
    WrittenTagsExported(s, cs);
    ExportedOnce(UniqueLists(s.brep, cs), s.brep.nbUniqueVertices);
  }

  /** Some tag of `ts` names unique vertex `x`. */
  predicate Tagged(ts: seq<nat>, x: nat)
  {
    exists j | 0 <= j < |ts| :: ts[j] == x + 1
  }

  /** Every unique vertex a visited component uses is written, with its own tag. */
  lemma {:induction false} WrittenTagsCover(s: Scene, cs: seq<ComponentId>, x: nat)
    requires AllPlacedIn(s, cs) && x in Used(UniqueLists(s.brep, cs))
    ensures Tagged(WrittenTags(s, cs), x)
  {
    WrittenTagsExported(s, cs);
    var e := Exported(UniqueLists(s.brep, cs), s.brep.nbUniqueVertices);
    ExportedUsed(UniqueLists(s.brep, cs), s.brep.nbUniqueVertices);
    var j :| 0 <= j < |e| && e[j] == x;
    assert WrittenTags(s, cs)[j] == x + 1;
  }

  /** Every used unique vertex has a written tag. */
  lemma {:induction false} WrittenTagsCoverAll(s: Scene, cs: seq<ComponentId>)
    requires AllPlacedIn(s, cs)
    ensures forall x: nat | x in Used(UniqueLists(s.brep, cs)) :: Tagged(WrittenTags(s, cs), x)
  {
    forall x: nat | x in Used(UniqueLists(s.brep, cs))
      ensures Tagged(WrittenTags(s, cs), x)
    {
      WrittenTagsCover(s, cs, x);
    }
  }

  // ---------------------------------------------------------------------
  // Points of unique vertices
  // ---------------------------------------------------------------------

  /** Component `id` is placed, and local vertex `v` sits at the point `pts` gives its unique vertex. */
  predicate PointsOf(s: Scene, id: ComponentId, pts: seq<Coords>)
  {
    && Placed(s, id)
    && forall v | 0 <= v < |ComponentAt(s.brep, id).uniqueOf| ::
         ComponentAt(s.brep, id).uniqueOf[v] < |pts| && s.points[id][v] == pts[ComponentAt(s.brep, id).uniqueOf[v]]
  }

  /**
   * The scene's points over the components `cs` are those of the unique
   * vertices: local vertices linked to the same unique vertex share a point.
   */
  predicate Consistent(s: Scene, cs: seq<ComponentId>, pts: seq<Coords>)
  {
    forall k | 0 <= k < |cs| :: PointsOf(s, cs[k], pts)
  }

  /** The points a component writes are those of the unique vertices its tags name. */
  lemma {:induction false} FreshPointsOfTags(s: Scene, id: ComponentId, flags: seq<bool>, pts: seq<Coords>)
    requires PointsOf(s, id, pts) && |flags| == s.brep.nbUniqueVertices
    ensures PointsOfTags(FreshTags(s, id, flags), FreshPoints(s, id, flags), pts)
  {
  }

  /** Points `ps` of the nodes that tags `ts` name in `pts`. */
  predicate PointsOfTags(ts: seq<nat>, ps: seq<Coords>, pts: seq<Coords>)
  {
    |ps| == |ts| && forall j | 0 <= j < |ts| :: 1 <= ts[j] <= |pts| && ps[j] == pts[ts[j] - 1]
  }

  /** Nodes named by their tags one after the other. */
  lemma {:induction false} PointsOfTagsAppend(ts: seq<nat>, ps: seq<Coords>, us: seq<nat>, qs: seq<Coords>, pts: seq<Coords>)
    requires PointsOfTags(ts, ps, pts) && PointsOfTags(us, qs, pts)
    ensures PointsOfTags(ts + us, ps + qs, pts)
  {
    forall j | 0 <= j < |ts + us|
      ensures 1 <= (ts + us)[j] <= |pts| && (ps + qs)[j] == pts[(ts + us)[j] - 1]
    {
      if j >= |ts| {
        assert (ts + us)[j] == us[j - |ts|] && (ps + qs)[j] == qs[j - |ts|];
      }
    }
  }

  /** The points written are those of the unique vertices the written tags name. */
  lemma {:induction false} ExportedPointsOfTags(s: Scene, cs: seq<ComponentId>, pts: seq<Coords>)
    requires AllPlacedIn(s, cs) && Consistent(s, cs, pts)
    ensures PointsOfTags(WrittenTags(s, cs), ExportedPoints(s, cs), pts)
    decreases |cs|
  {
    if cs != [] {
      var init := cs[..|cs| - 1];
      var last := cs[|cs| - 1];
      assert AllPlacedIn(s, init) by {
        forall k | 0 <= k < |init| ensures Placed(s, init[k]) {
          assert init[k] == cs[k];
        }
      }
      assert Consistent(s, init, pts) by {
        forall k | 0 <= k < |init| ensures PointsOf(s, init[k], pts) {
          assert init[k] == cs[k];
        }
      }
      var flags := Flags(UniqueLists(s.brep, init), s.brep.nbUniqueVertices);
      ExportedPointsOfTags(s, init, pts);
      NodeBlocksSnoc(s, cs, flags);
      WrittenTagsSnoc(s, cs, flags);
      FreshPointsOfTags(s, last, flags, pts);
      PointsOfTagsAppend(WrittenTags(s, init), ExportedPoints(s, init), FreshTags(s, last, flags), FreshPoints(s, last, flags), pts);
    }
  }

  // ---------------------------------------------------------------------
  // Reading the nodes back
  // ---------------------------------------------------------------------

  /** Placing nodes named by distinct tags puts at each tag's node the point of its unique vertex. */
  lemma {:induction false} PlacedPointsOfTags(r: seq<Coords>, nb: nat, ts: seq<nat>, ps: seq<Coords>, pts: seq<Coords>)
    requires PointsOfTags(ts, ps, pts) && forall j | 0 <= j < |ts| :: 1 <= ts[j] <= nb
    requires forall i, j | 0 <= i < j < |ts| :: ts[i] != ts[j]
    requires r == PlaceNodes(Origins(nb), ts, ps)
    ensures forall j | 0 <= j < |ts| :: 1 <= ts[j] <= nb && ts[j] <= |pts| && r[ts[j] - 1] == pts[ts[j] - 1]
  {
    PlacedNodes(Origins(nb), ts, ps);
  }

  /** Every node the tags name gets its point when every used unique vertex has a tag. */
  lemma {:induction false} CoveredPlaced(r: seq<Coords>, ts: seq<nat>, pts: seq<Coords>, used: set<nat>)
    requires forall j | 0 <= j < |ts| :: 1 <= ts[j] <= |r| && ts[j] <= |pts| && r[ts[j] - 1] == pts[ts[j] - 1]
    requires forall x: nat | x in used :: Tagged(ts, x)
    ensures forall x: nat | x in used :: x < |r| && x < |pts| && r[x] == pts[x]
  {
    forall x: nat | x in used ensures x < |r| && x < |pts| && r[x] == pts[x] {
      var j :| 0 <= j < |ts| && ts[j] == x + 1;
    }
  }

  /** The tag-placing reader reading what the writer wrote places the written points `ps` at the written tags `ts`. */
  lemma {:induction false} TaggedNodesParsed(s: Scene, lines: seq<string>, h: nat, ts: seq<nat>, ps: seq<Coords>, next: nat, nb: nat)
    requires AllPlacedIn(s, Order(s.brep)) && AllFitIn(s, Order(s.brep))
    requires |Order(s.brep)| < INDEX_LIMIT && s.brep.nbUniqueVertices < INDEX_LIMIT
    requires LinesAt(lines, h, NodesText(s))
    requires ts == WrittenTags(s, Order(s.brep)) && ps == ExportedPoints(s, Order(s.brep))
    requires next == h + |NodesText(s)| && nb == s.brep.nbUniqueVertices
    ensures |ts| == |ps| && forall j | 0 <= j < |ts| :: 1 <= ts[j] <= nb
    ensures TaggedNodeBodyV4(lines, h) == Ok((PlaceNodes(Origins(nb), ts, ps), next, nb))
  {
    var order := Order(s.brep);
    NodesTextReadsBack(s, lines, h);
    TagBlocksReadBack(s, order, lines, h + 2);
    TagsV4Count(lines, h + 2, |order|);
    WrittenTagsInRange(s, order);
    assert NodeBodyV4(lines, h).value.0 == ps;
    assert NodeBodyV4(lines, h).value.1 == next;
    assert NodeBodyV4(lines, h).value.2 == nb;
    OkTriple(NodeBodyV4(lines, h), ps, next, nb);
    TaggedNodeBodyV4Reads(lines, h, ts, ps, next, nb);
  }

  /**
   * The tag-placing reader reading what the writer wrote puts at the node
   * of every written tag the point of the unique vertex it names.
   */
  lemma {:induction false} TaggedNodesPlaced(s: Scene, pts: seq<Coords>, lines: seq<string>, h: nat, ts: seq<nat>)
    requires AllPlacedIn(s, Order(s.brep)) && AllFitIn(s, Order(s.brep))
    requires |Order(s.brep)| < INDEX_LIMIT && s.brep.nbUniqueVertices < INDEX_LIMIT
    requires LinesAt(lines, h, NodesText(s))
    requires AllDistinct(UniqueLists(s.brep, Order(s.brep))) && Consistent(s, Order(s.brep), pts)
    requires ts == WrittenTags(s, Order(s.brep))
    ensures TaggedNodeBodyV4(lines, h).Ok? && |TaggedNodeBodyV4(lines, h).value.0| == s.brep.nbUniqueVertices
    ensures forall j | 0 <= j < |ts| ::
      1 <= ts[j] <= |TaggedNodeBodyV4(lines, h).value.0| && ts[j] <= |pts| &&
      TaggedNodeBodyV4(lines, h).value.0[ts[j] - 1] == pts[ts[j] - 1]
  {
    var order := Order(s.brep);
    var ps := ExportedPoints(s, order);
    TaggedNodesParsed(s, lines, h, ts, ps, h + |NodesText(s)|, s.brep.nbUniqueVertices);
    WrittenTagsDistinct(s, order);
    ExportedPointsOfTags(s, order, pts);
    PlacedPointsOfTags(TaggedNodeBodyV4(lines, h).value.0, s.brep.nbUniqueVertices, ts, ps, pts);
  }

  /**
   * The tag-placing reader reading what the writer wrote gives every
   * unique vertex the components use its own point, when the scene's
   * points are those of its unique vertices and no component repeats a
   * unique vertex.
   */
  lemma {:induction false} TaggedNodesReadBack(s: Scene, pts: seq<Coords>, lines: seq<string>, h: nat)
    requires AllPlacedIn(s, Order(s.brep)) && AllFitIn(s, Order(s.brep))
    requires |Order(s.brep)| < INDEX_LIMIT && s.brep.nbUniqueVertices < INDEX_LIMIT
    requires LinesAt(lines, h, NodesText(s))
    requires AllDistinct(UniqueLists(s.brep, Order(s.brep))) && Consistent(s, Order(s.brep), pts)
    ensures TaggedNodeBodyV4(lines, h).Ok? && |TaggedNodeBodyV4(lines, h).value.0| == s.brep.nbUniqueVertices
    ensures forall x: nat | x in Used(UniqueLists(s.brep, Order(s.brep))) ::
      x < |TaggedNodeBodyV4(lines, h).value.0| && x < |pts| && TaggedNodeBodyV4(lines, h).value.0[x] == pts[x]
  {
    var ts := WrittenTags(s, Order(s.brep));
    TaggedNodesPlaced(s, pts, lines, h, ts);
    WrittenTagsCoverAll(s, Order(s.brep));
    CoveredPlaced(TaggedNodeBodyV4(lines, h).value.0, ts, pts, Used(UniqueLists(s.brep, Order(s.brep))));
  }

  // ---------------------------------------------------------------------
  // The reader as written
  // ---------------------------------------------------------------------

  /**
   * The reader as written, reading what the writer wrote, gives node `j`
   * of the model the point of the `j`-th unique vertex exported, not the
   * point of unique vertex `j`.
   */
  lemma {:induction false} UntaggedNodesReadBack(s: Scene, pts: seq<Coords>, lines: seq<string>, h: nat, e: seq<nat>)
    requires AllPlacedIn(s, Order(s.brep)) && AllFitIn(s, Order(s.brep))
    requires |Order(s.brep)| < INDEX_LIMIT && s.brep.nbUniqueVertices < INDEX_LIMIT
    requires LinesAt(lines, h, NodesText(s)) && Consistent(s, Order(s.brep), pts)
    requires Bounded(UniqueLists(s.brep, Order(s.brep)), s.brep.nbUniqueVertices)
    requires e == Exported(UniqueLists(s.brep, Order(s.brep)), s.brep.nbUniqueVertices)
    ensures NodeBodyV4(lines, h).Ok? && |NodeBodyV4(lines, h).value.0| == |e|
    ensures forall j | 0 <= j < |e| :: e[j] < |pts| && NodeBodyV4(lines, h).value.0[j] == pts[e[j]]
  {
    var order := Order(s.brep);
    var ts, ps := WrittenTags(s, order), ExportedPoints(s, order);
    NodesTextReadsBack(s, lines, h);
    assert NodeBodyV4(lines, h).value.0 == ps;
    WrittenTagsExported(s, order);
    ExportedPointsOfTags(s, order, pts);
    forall j | 0 <= j < |e| ensures e[j] < |pts| && ps[j] == pts[e[j]] {
      assert ts[j] == e[j] + 1;
    }
  }

  /**
   * Where the `j`-th unique vertex exported is not unique vertex `j` and
   * the two have different points, the reader as written gives unique
   * vertex `j` a point that is not its own.
   */
  lemma {:induction false} UntaggedNodesMisplaced(s: Scene, pts: seq<Coords>, lines: seq<string>, h: nat, e: seq<nat>, j: nat)
    requires AllPlacedIn(s, Order(s.brep)) && AllFitIn(s, Order(s.brep))
    requires |Order(s.brep)| < INDEX_LIMIT && s.brep.nbUniqueVertices < INDEX_LIMIT
    requires LinesAt(lines, h, NodesText(s)) && Consistent(s, Order(s.brep), pts)
    requires Bounded(UniqueLists(s.brep, Order(s.brep)), s.brep.nbUniqueVertices)
    requires e == Exported(UniqueLists(s.brep, Order(s.brep)), s.brep.nbUniqueVertices)
    requires j < |e| && j < |pts| && e[j] < |pts| && pts[e[j]] != pts[j]
    ensures NodeBodyV4(lines, h).Ok? && j < |NodeBodyV4(lines, h).value.0| && NodeBodyV4(lines, h).value.0[j] != pts[j]
  {
    UntaggedNodesReadBack(s, pts, lines, h, e);
  }

  /**
   * Two corners, the first linked to unique vertex 1 and the second to
   * unique vertex 0: the writer exports unique vertex 1 first, so the
   * first node the reader as written reads is that of unique vertex 1.
   */
  lemma SwappedCornersExport()
    ensures Exported([[1], [0]], 2) == [1, 0]
  {
    FirstCornerExport();
    var us: seq<seq<nat>> := [[1], [0]];
    assert us[..1] == [[1]];
    assert Fresh([0], [false, true], 1) == [0];
    assert FreshUids([0], Flags([[1]], 2)) == [0];
  }

  /** The first of the two corners alone: it exports unique vertex 1, which it flags. */
  lemma FirstCornerExport()
    ensures Exported([[1]], 2) == [1] && Flags([[1]], 2) == [false, true]
  {
    var us: seq<seq<nat>> := [[1]];
    assert us[..0] == [];
    var last := us[0];
    assert (set v | 0 <= v < |last| :: last[v]) == {1} by {
      assert last[0] == 1;
    }
    assert Used(us) == {1};
    assert Fresh([1], Flags([], 2), 1) == [0];
  }
}
