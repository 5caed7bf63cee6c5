/**
 * Reading back what the MSH 4.1 writer writes, with the version 4 reader:
 * the node section reads back as the points of the exported vertices in
 * the order they were exported, and element lines read back as the
 * written element type with the unique vertices they were written from.
 */
module MshRoundTrip {
  import opened Wrappers
  import opened Text
  import opened Streams
  import opened BRepModel
  import opened MshCommon
  import opened MshLines
  import opened MshExport
  import opened MshOutput

  /** Values below 2^32 written space-separated are what the first `n` extractions read. */
  lemma {:induction false} FieldsOfSpaced(xs: seq<nat>, n: nat)
    requires n <= |xs| && forall i | 0 <= i < |xs| :: xs[i] < INDEX_LIMIT
    ensures Fields(Spaced(xs), n) == xs[..n]
  {
    SplitSpaced(xs);
    var s := OfLine(Spaced(xs));
    forall i | 0 <= i < |xs|
      ensures ParseIndex(s.tokens[i]) == Some(xs[i])
    {
      NatToStringRoundTrip(xs[i]);
    }
    forall i | 0 <= i < n
      ensures Fields(Spaced(xs), n)[i] == xs[i]
    {
      assert Readable(s, i);
    }
  }

  /** Coordinates whose three texts are single words. */
  predicate WordCoords(p: Coords)
  {
    IsWord(p.x) && IsWord(p.y) && IsWord(p.z)
  }

  /** A coordinate line reads back as the coordinates it was written from. */
  lemma {:induction false} CoordsReadBack(p: Coords)
    requires WordCoords(p)
    ensures Coordinates(OfLine(CoordsText(p))) == p
  {
    SplitThree(p.x, p.y, p.z);
  }

  /** Line `p + i` of lines holding `block` from line `p` on is the block's line `i`. */
  lemma {:induction false} LineOf(lines: seq<string>, p: nat, block: seq<string>, i: nat)
    requires LinesAt(lines, p, block) && i < |block|
    ensures LineAt(lines, p + i) == block[i]
  {
  }

  /** The first line of a block is at the block's start. */
  lemma {:induction false} FirstLine(lines: seq<string>, p: nat, block: seq<string>)
    requires LinesAt(lines, p, block) && block != []
    ensures LineAt(lines, p) == block[0]
  {
    LineOf(lines, p, block, 0);
  }

  /**
   * What reading back needs of component `id`: its tag, its vertex count
   * and its coordinates fit the reader (32-bit counts, one word per
   * coordinate).
   */
  predicate Fits(s: Scene, id: ComponentId)
  {
    && Placed(s, id)
    && id.index + 1 < INDEX_LIMIT && |ComponentAt(s.brep, id).uniqueOf| < INDEX_LIMIT
    && forall v | 0 <= v < |s.points[id]| :: WordCoords(s.points[id][v])
  }

  predicate AllFitIn(s: Scene, cs: seq<ComponentId>)
  {
    forall k | 0 <= k < |cs| :: Fits(s, cs[k])
  }

  /** The points of the vertices component `id` exports with the flags `flags`, in export order. */
  function FreshPoints(s: Scene, id: ComponentId, flags: seq<bool>): (r: seq<Coords>)
    requires Placed(s, id) && |flags| == s.brep.nbUniqueVertices
  {
    var u := ComponentAt(s.brep, id).uniqueOf;
    var vs := Fresh(u, flags, |u|);
    seq(|vs|, j requires 0 <= j < |vs| => s.points[id][vs[j]])
  }

  /** Lines that hold two blocks one after the other hold each of them. */
  lemma {:induction false} LinesAtSplit(lines: seq<string>, p: nat, a: seq<string>, b: seq<string>, q: nat)
    requires LinesAt(lines, p, a + b) && q == p + |a|
    ensures LinesAt(lines, p, a) && LinesAt(lines, q, b)
  {
    forall i | 0 <= i < |a|
      ensures LineAt(lines, p + i) == a[i]
    {
      assert (a + b)[i] == a[i];
    }
    forall i | 0 <= i < |b|
      ensures LineAt(lines, p + |a| + i) == b[i]
    {
      assert (a + b)[|a| + i] == b[i];
      assert p + (|a| + i) == p + |a| + i;
    }
  }

  /** Lines that hold three blocks one after the other hold each of them, at positions `q` and `r` for the last two. */
  lemma {:induction false} LinesAtSplit3(lines: seq<string>, p: nat, a: seq<string>, b: seq<string>, c: seq<string>, q: nat, r: nat)
    requires LinesAt(lines, p, a + b + c) && q == p + |a| && r == q + |b|
    ensures LinesAt(lines, p, a) && LinesAt(lines, q, b) && LinesAt(lines, r, c)
  {
    LinesAtSplit(lines, p, a + b, c, r);
    LinesAtSplit(lines, p, a, b, q);
  }

  /** A header line of four values below 2^32 reads back as those values. */
  lemma {:induction false} HeaderFields(lines: seq<string>, p: nat, xs: seq<nat>)
    requires |xs| == 4 && xs[0] < INDEX_LIMIT && xs[1] < INDEX_LIMIT && xs[2] < INDEX_LIMIT && xs[3] < INDEX_LIMIT
    requires LineAt(lines, p) == Spaced(xs)
    ensures Fields(LineAt(lines, p), 4) == xs
  {
    assert forall i | 0 <= i < |xs| :: xs[i] < INDEX_LIMIT;
    FieldsOfSpaced(xs, 4);
    assert xs[..4] == xs;
  }

  /** The coordinate lines of `ps`. */
  function CoordTexts(ps: seq<Coords>): (r: seq<string>)
    ensures |r| == |ps| && forall k | 0 <= k < |ps| :: r[k] == CoordsText(ps[k])
  {
    seq(|ps|, k requires 0 <= k < |ps| => CoordsText(ps[k]))
  }

  /** Coordinate lines from line `q` on read back as the coordinates they were written from. */
  lemma {:induction false} CoordLinesReadBack(lines: seq<string>, q: nat, ps: seq<Coords>)
    requires forall k | 0 <= k < |ps| :: WordCoords(ps[k])
    requires LinesAt(lines, q, CoordTexts(ps))
    ensures forall k | 0 <= k < |ps| :: Coordinates(OfLine(LineAt(lines, q + k))) == ps[k]
  {
    forall k | 0 <= k < |ps|
      ensures Coordinates(OfLine(LineAt(lines, q + k))) == ps[k]
    {
      LineOf(lines, q, CoordTexts(ps), k);
      CoordsReadBack(ps[k]);
    }
  }

  /**
   * Lines holding a header, then `tags`, then the coordinate lines of `ps`
   * from line `p` on: the header is line `p`, and the lines from `q` on
   * read back as `ps`.
   */
  lemma {:induction false} GroupLines(lines: seq<string>, p: nat, header: string, tags: seq<string>, ps: seq<Coords>, q: nat)
    requires forall k | 0 <= k < |ps| :: WordCoords(ps[k])
    requires LinesAt(lines, p, [header] + tags + CoordTexts(ps)) && q == p + 1 + |tags|
    ensures LineAt(lines, p) == header
    ensures forall k | 0 <= k < |ps| :: Coordinates(OfLine(LineAt(lines, q + k))) == ps[k]
  {
    LinesAtSplit3(lines, p, [header], tags, CoordTexts(ps), p + 1, q);
    FirstLine(lines, p, [header]);
    CoordLinesReadBack(lines, q, ps);
  }

  /**
   * A node group written as a header whose fields read "dim tag 0 nb",
   * `nb` lines of tags and the coordinate lines of `nb` points reads as
   * those points.
   */
  lemma {:induction false} GroupReadsBack(lines: seq<string>, p: nat, header: string, tags: seq<string>, ps: seq<Coords>)
    requires Fields(header, 4)[2] == 0 && Fields(header, 4)[3] == |ps| == |tags|
    requires forall k | 0 <= k < |ps| :: WordCoords(ps[k])
    requires LinesAt(lines, p, [header] + tags + CoordTexts(ps))
    ensures NodeGroupV4(lines, p) == Ok((ps, p + 1 + 2 * |ps|))
  {
    GroupLines(lines, p, header, tags, ps, p + 1 + |ps|);
    NodeGroupV4Reads(lines, p, ps);
  }

  /** A written node block reads back as one node group holding the points of the exported vertices. */
  lemma {:induction false} NodeBlockReadsBack(s: Scene, id: ComponentId, flags: seq<bool>, lines: seq<string>, p: nat)
    requires Fits(s, id) && |flags| == s.brep.nbUniqueVertices
    requires LinesAt(lines, p, NodeBlock(s, id, flags))
    ensures NodeGroupV4(lines, p).Ok? && NodeGroupV4(lines, p).value.0 == FreshPoints(s, id, flags)
    ensures NodeGroupV4(lines, p).value.1 == p + |NodeBlock(s, id, flags)|
  {
    var u := ComponentAt(s.brep, id).uniqueOf;
    var vs := Fresh(u, flags, |u|);
    var xs := [Dimension(id.kind), id.index + 1, 0, |vs|];
    var ps := FreshPoints(s, id, flags);
    NodeBlockParts(s, id, flags, Spaced(xs), vs);
    assert CoordLines(s.points[id], vs) == CoordTexts(ps);
    FieldsOfSpaced(xs, 4);
    assert xs[..4] == xs;
    GroupReadsBack(lines, p, Spaced(xs), TagLines(u, vs), ps);
    assert |NodeBlock(s, id, flags)| == 1 + 2 * |ps|;
  }

  /** One more node group after `m` groups that read: the first `n = m + 1` groups hold the nodes `all` of both. */
  lemma {:induction false} GroupsStep(lines: seq<string>, p: nat, m: nat, n: nat, ps: seq<Coords>, pos: nat, qs: seq<Coords>, next: nat, all: seq<Coords>)
    requires NodeGroupsV4(lines, p, m).Ok? && NodeGroupsV4(lines, p, m).value.0 == ps
    requires NodeGroupsV4(lines, p, m).value.1 == pos
    requires NodeGroupV4(lines, pos).Ok? && NodeGroupV4(lines, pos).value.0 == qs
    requires NodeGroupV4(lines, pos).value.1 == next && all == ps + qs && n == m + 1
    ensures NodeGroupsV4(lines, p, n).Ok? && NodeGroupsV4(lines, p, n).value.0 == all
    ensures NodeGroupsV4(lines, p, n).value.1 == next
  {
    assert NodeGroupsV4(lines, p, n - 1) == Ok((ps, pos));
    assert NodeGroupV4(lines, pos) == Ok((qs, next));
  }

  /** The points of the vertices the components `cs` export, in the order they are written. */
  function ExportedPoints(s: Scene, cs: seq<ComponentId>): seq<Coords>
    requires AllPlacedIn(s, cs)
  {
    if cs == [] then []
    else
      var init := cs[..|cs| - 1];
      assert AllPlacedIn(s, init) by {
        forall k | 0 <= k < |init| ensures Placed(s, init[k]) {
          assert init[k] == cs[k];
        }
      }
      ExportedPoints(s, init) + FreshPoints(s, cs[|cs| - 1], Flags(UniqueLists(s.brep, init), s.brep.nbUniqueVertices))
  }

  /** The components before the last one fit. */
  lemma {:induction false} FitInit(s: Scene, cs: seq<ComponentId>)
    requires AllFitIn(s, cs) && cs != []
    ensures AllFitIn(s, cs[..|cs| - 1]) && AllPlacedIn(s, cs) && AllPlacedIn(s, cs[..|cs| - 1])
    ensures Fits(s, cs[|cs| - 1])
  {
    var init := cs[..|cs| - 1];
    forall k | 0 <= k < |init| ensures Fits(s, init[k]) {
      assert init[k] == cs[k];
    }
  }

  /** Writing one more component appends its node block. */
  lemma {:induction false} NodeBlocksSnoc(s: Scene, cs: seq<ComponentId>, flags: seq<bool>)
    requires AllPlacedIn(s, cs) && cs != [] && AllPlacedIn(s, cs[..|cs| - 1])
    requires flags == Flags(UniqueLists(s.brep, cs[..|cs| - 1]), s.brep.nbUniqueVertices)
    ensures NodeBlocks(s, cs) == NodeBlocks(s, cs[..|cs| - 1]) + NodeBlock(s, cs[|cs| - 1], flags)
    ensures ExportedPoints(s, cs) == ExportedPoints(s, cs[..|cs| - 1]) + FreshPoints(s, cs[|cs| - 1], flags)
  {
  }

  /** Lines holding the node blocks of `cs` hold those of `init`, the components before the last one `last`, then the last one's block at `pos`. */
  lemma {:induction false} BlocksSplit(s: Scene, cs: seq<ComponentId>, init: seq<ComponentId>, last: ComponentId, flags: seq<bool>, lines: seq<string>, p: nat, pos: nat)
    requires AllPlacedIn(s, cs) && cs != [] && init == cs[..|cs| - 1] && last == cs[|cs| - 1] && AllPlacedIn(s, init)
    requires flags == Flags(UniqueLists(s.brep, init), s.brep.nbUniqueVertices)
    requires LinesAt(lines, p, NodeBlocks(s, cs)) && pos == p + |NodeBlocks(s, init)|
    ensures LinesAt(lines, p, NodeBlocks(s, init)) && LinesAt(lines, pos, NodeBlock(s, last, flags))
    ensures p + |NodeBlocks(s, cs)| == pos + |NodeBlock(s, last, flags)|
  {
    NodeBlocksSnoc(s, cs, flags);
    LinesAtSplit(lines, p, NodeBlocks(s, init), NodeBlock(s, last, flags), pos);
  }

  /** The node blocks of the components `cs` read back as `|cs|` node groups holding the exported points. */
  lemma {:induction false} NodeBlocksReadBack(s: Scene, cs: seq<ComponentId>, lines: seq<string>, p: nat)
    requires AllFitIn(s, cs)
    requires LinesAt(lines, p, NodeBlocks(s, cs))
    ensures NodeGroupsV4(lines, p, |cs|).Ok? && NodeGroupsV4(lines, p, |cs|).value.0 == ExportedPoints(s, cs)
    ensures NodeGroupsV4(lines, p, |cs|).value.1 == p + |NodeBlocks(s, cs)|
    decreases |cs|
  {
    if cs != [] {
      var init := cs[..|cs| - 1];
      var last := cs[|cs| - 1];
      var flags := Flags(UniqueLists(s.brep, init), s.brep.nbUniqueVertices);
      FitInit(s, cs);
      var pos := p + |NodeBlocks(s, init)|;
      BlocksSplit(s, cs, init, last, flags, lines, p, pos);
      NodeBlocksReadBack(s, init, lines, p);
      NodeBlockReadsBack(s, last, flags, lines, pos);
      NodeBlocksSnoc(s, cs, flags);
      GroupsStep(lines, p, |init|, |cs|, ExportedPoints(s, init), pos, FreshPoints(s, last, flags),
        p + |NodeBlocks(s, cs)|, ExportedPoints(s, cs));
    }
  }

  /** The node section reads as its groups when its header is continuous and "$EndNodes" follows them. */
  lemma {:induction false} NodeBodyOk(lines: seq<string>, h: nat, xs: seq<nat>, ps: seq<Coords>, pos: nat)
    requires Fields(LineAt(lines, h + 1), 4) == xs && |xs| == 4 && xs[2] == 1 && xs[3] == xs[1]
    requires NodeGroupsV4(lines, h + 2, xs[0]).Ok? && NodeGroupsV4(lines, h + 2, xs[0]).value.0 == ps
    requires NodeGroupsV4(lines, h + 2, xs[0]).value.1 == pos && LineAt(lines, pos) == END_NODES
    ensures NodeBodyV4(lines, h).Ok? && NodeBodyV4(lines, h).value.0 == ps
    ensures NodeBodyV4(lines, h).value.1 == pos + 1 && NodeBodyV4(lines, h).value.2 == xs[1]
  {
    assert StartsWith(END_NODES, END_NODES);
  }

  /**
   * The node section the writer writes reads back, with the version 4
   * reader, as the exported points in the order they were written, and
   * declares as many nodes as the model has unique vertices.
   */
  lemma {:induction false} NodesTextReadsBack(s: Scene, lines: seq<string>, h: nat)
    requires AllPlacedIn(s, Order(s.brep)) && AllFitIn(s, Order(s.brep))
    requires |Order(s.brep)| < INDEX_LIMIT && s.brep.nbUniqueVertices < INDEX_LIMIT
    requires LinesAt(lines, h, NodesText(s))
    ensures NodeBodyV4(lines, h).Ok? && NodeBodyV4(lines, h).value.0 == ExportedPoints(s, Order(s.brep))
    ensures NodeBodyV4(lines, h).value.1 == h + |NodesText(s)|
    ensures NodeBodyV4(lines, h).value.2 == s.brep.nbUniqueVertices
    ensures Fields(LineAt(lines, h + 1), 4)[0] == |Order(s.brep)|
    ensures LinesAt(lines, h + 2, NodeBlocks(s, Order(s.brep)))
  {
    var order := Order(s.brep);
    var xs := NodesHeader(s);
    var blocks := NodeBlocks(s, order);
    NodesTextParts(s);
    NodeSectionBlocks(lines, h, xs, blocks);
    NodeBlocksReadBack(s, order, lines, h + 2);
    NodeSectionReads(lines, h, xs, blocks, ExportedPoints(s, order));
  }

  /** The groups of a node section of header values `xs` start two lines after its header. */
  lemma {:induction false} NodeSectionBlocks(lines: seq<string>, h: nat, xs: seq<nat>, blocks: seq<string>)
    requires LinesAt(lines, h, [NODES, Spaced(xs)] + blocks + [END_NODES])
    ensures LinesAt(lines, h + 2, blocks)
  {
    LinesAtSplit3(lines, h, [NODES, Spaced(xs)], blocks, [END_NODES], h + 2, h + 2 + |blocks|);
  }

  /**
   * A node section of continuous header values `xs` whose groups `blocks`
   * read as the points `ps` reads as those points, up to the line after
   * "$EndNodes".
   */
  lemma {:induction false} NodeSectionReads(lines: seq<string>, h: nat, xs: seq<nat>, blocks: seq<string>, ps: seq<Coords>)
    requires |xs| == 4 && xs[0] < INDEX_LIMIT && xs[1] < INDEX_LIMIT && xs[2] == 1 && xs[3] == xs[1]
    requires LinesAt(lines, h, [NODES, Spaced(xs)] + blocks + [END_NODES])
    requires NodeGroupsV4(lines, h + 2, xs[0]).Ok? && NodeGroupsV4(lines, h + 2, xs[0]).value.0 == ps
    requires NodeGroupsV4(lines, h + 2, xs[0]).value.1 == h + 2 + |blocks|
    ensures NodeBodyV4(lines, h).Ok? && NodeBodyV4(lines, h).value.0 == ps
    ensures NodeBodyV4(lines, h).value.1 == h + 3 + |blocks| && NodeBodyV4(lines, h).value.2 == xs[1]
    ensures Fields(LineAt(lines, h + 1), 4) == xs
  {
    var head := [NODES, Spaced(xs)];
    var end := h + 2 + |blocks|;
    LinesAtSplit3(lines, h, head, blocks, [END_NODES], h + 2, end);
    LineOf(lines, h, head, 1);
    FirstLine(lines, end, [END_NODES]);
    HeaderFields(lines, h + 1, xs);
    NodeBodyOk(lines, h, xs, ps, end);
  }

  /** The written node section is its two header lines, its node groups and its closing line. */
  lemma NodesTextParts(s: Scene)
    requires AllPlacedIn(s, Order(s.brep))
    ensures NodesText(s) == [NODES, Spaced(NodesHeader(s))] + NodeBlocks(s, Order(s.brep)) + [END_NODES]
  {
  }
}
