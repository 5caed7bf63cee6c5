/**
 * `SVGInputImpl::build_topology` (src/geode/io/model/svg_input.cpp): the
 * potential corners (the two ends of each line) are grouped by a
 * colocation search, one corner is created per group, each line is
 * attached to the corners at its ends, and every line vertex is given a
 * unique vertex.
 *
 * The colocation search works on floating-point distances; its result,
 * the unique points and the group of each potential corner, is a
 * parameter here.
 */
module SvgTopology {
  import opened SvgPath

  /** A `ComponentMeshVertex` of the section: a corner's only vertex, or vertex `v` of a line. */
  datatype MeshVertex = CornerVertex(corner: nat) | LineVertex(line: nat, v: nat)

  /** `NNSearch::ColocatedInfo`: the unique points and, per input point, the index of its unique point. */
  datatype Colocation = Colocation(uniquePoints: seq<Point>, mapping: seq<nat>)

  /** A colocation result for `n` input points. */
  predicate ValidColocation(info: Colocation, n: nat)
  {
    |info.mapping| == n && forall c | 0 <= c < n :: info.mapping[c] < |info.uniquePoints|
  }

  /** Each pair appears at most once. */
  predicate NoDuplicates(pairs: seq<(nat, nat)>)
  {
    forall a, b | 0 <= a < b < |pairs| :: Differ(pairs, a, b)
  }

  /** Positions `a` and `b` hold different pairs. */
  predicate Differ(pairs: seq<(nat, nat)>, a: nat, b: nat)
    requires a < |pairs| && b < |pairs|
  {
    pairs[a] != pairs[b]
  }

  /** The line vertices, line after line and vertex after vertex, from vertex `v` of line `i` on. */
  function LineVertices(lines: seq<Polyline>, i: nat, v: nat): seq<MeshVertex>
    decreases |lines| - i, if i < |lines| then |lines[i].points| - v else 0
  {
    if i >= |lines| then []
    else if v >= |lines[i].points| then LineVertices(lines, i + 1, 0)
    else [LineVertex(i, v)] + LineVertices(lines, i, v + 1)
  }

  /**
   * Giving each vertex of `keys` that has no unique vertex yet a new one,
   * numbered from `n` in order.
   */
  function Fill(m: map<MeshVertex, nat>, n: nat, keys: seq<MeshVertex>): (map<MeshVertex, nat>, nat)
    decreases |keys|
  {
    if keys == [] then (m, n)
    else if keys[0] in m then Fill(m, n, keys[1..])
    else Fill(m[keys[0] := n], n + 1, keys[1..])
  }

  /**
   * After filling, every key has a unique vertex, the existing ones are
   * unchanged, and the new ones are distinct and numbered from `n`.
   */
  lemma {:induction false} FillAssigns(m: map<MeshVertex, nat>, n: nat, keys: seq<MeshVertex>)
    requires forall k | k in m :: m[k] < n
    ensures var (r, n') := Fill(m, n, keys);
      n <= n' &&
      (forall i | 0 <= i < |keys| :: keys[i] in r) &&
      (forall k | k in m :: k in r && r[k] == m[k]) &&
      (forall k | k in r :: k in m || k in keys) &&
      (forall k | k in r :: r[k] < n') &&
      (forall k | k in r && k !in m :: n <= r[k]) &&
      (forall k, k' | k in r && k' in r && k !in m && k' !in m && k != k' :: r[k] != r[k'])
    decreases |keys|
  {
    if keys != [] {
      var rest := keys[1..];
      assert forall i | 1 <= i < |keys| :: keys[i] == rest[i - 1];
      if keys[0] in m {
        FillAssigns(m, n, rest);
      } else {
        FillAssigns(m[keys[0] := n], n + 1, rest);
      }
    }
  }

  /** Vertex `v` of line `i` is among the line vertices listed from the start. */
  lemma {:induction false} LineVertexListed(lines: seq<Polyline>, i: nat, v: nat, j: nat, w: nat)
    requires j < |lines| && w < |lines[j].points|
    requires i < j || (i == j && v <= w)
    ensures LineVertex(j, w) in LineVertices(lines, i, v)
    decreases |lines| - i, if i < |lines| then |lines[i].points| - v else 0
  {
    if v >= |lines[i].points| {
      assert LineVertices(lines, i, v) == LineVertices(lines, i + 1, 0);
      LineVertexListed(lines, i + 1, 0, j, w);
    } else {
      assert LineVertices(lines, i, v) == [LineVertex(i, v)] + LineVertices(lines, i, v + 1);
      if !(i == j && v == w) {
        LineVertexListed(lines, i, v + 1, j, w);
      }
    }
  }

  /** The mesh vertex a potential corner stands for. */
  function EndVertex(e: LineEnd): MeshVertex
  {
    LineVertex(e.line, e.vertex)
  }

  /**
   * The potential corners of lines made by `create_line` stand for
   * distinct mesh vertices: two lines differ, and the two ends of a line
   * of at least two points differ.
   */
  lemma EndsDistinct(lines: seq<Polyline>, ends: seq<LineEnd>, c: nat, d: nat)
    requires LinesWithEnds(lines, ends) && c < d < |ends|
    ensures EndVertex(ends[c]) != EndVertex(ends[d])
  {
    var i, j := c / 2, d / 2;
    assert c == 2 * i || c == 2 * i + 1;
    assert d == 2 * j || d == 2 * j + 1;
    assert EndOfLine(lines, ends, i, c) && EndOfLine(lines, ends, j, d);
    if i == j {
      assert c == 2 * i && d == 2 * i + 1;
    }
  }

  /** Potential corner `c` lies on line `i`, at its first vertex if `c` is even and its last otherwise. */
  predicate EndOfLine(lines: seq<Polyline>, ends: seq<LineEnd>, i: nat, c: nat)
    requires c < |ends|
  {
    i < |lines| && ends[c].line == i &&
    ends[c].vertex == (if c % 2 == 0 then 0 else |lines[i].points| - 1) &&
    ends[c].vertex < |lines[i].points|
  }

  /** Every potential corner lies on the line it names, at a vertex of that line. */
  lemma EndsOnLines(lines: seq<Polyline>, ends: seq<LineEnd>, c: nat)
    requires LinesWithEnds(lines, ends) && c < |ends|
    ensures EndOfLine(lines, ends, c / 2, c)
  {
    var i := c / 2;
    assert LinesWithEnds(lines, ends);
    if c == 2 * i {
      assert c % 2 == 0 && ends[2 * i] == LineEnd(lines[i].points[0], i, 0);
    } else {
      assert c == 2 * i + 1 && c % 2 == 1;
      assert ends[2 * i + 1] == LineEnd(lines[i].points[|lines[i].points| - 1], i, |lines[i].points| - 1);
    }
  }

  /** The (corner, line) pair each potential corner asks for. */
  function CornerLinePairs(ends: seq<LineEnd>, info: Colocation, cornerIds: seq<nat>): (r: seq<(nat, nat)>)
    requires ValidColocation(info, |ends|) && |cornerIds| == |info.uniquePoints|
    ensures |r| == |ends|
  {
    seq(|ends|, c requires 0 <= c < |ends| => (cornerIds[info.mapping[c]], ends[c].line))
  }

  /** Adding each pair, in order, unless it is already there. */
  function AddRelations(relations: seq<(nat, nat)>, pairs: seq<(nat, nat)>): seq<(nat, nat)>
    decreases |pairs|
  {
    if pairs == [] then relations
    else AddRelations(if pairs[0] in relations then relations else relations + [pairs[0]], pairs[1..])
  }

  /**
   * After adding, every pair is there, the old relations are kept, nothing
   * else appears, and no relation is repeated if none was before.
   */
  lemma {:induction false} AddRelationsSpec(relations: seq<(nat, nat)>, pairs: seq<(nat, nat)>)
    ensures var r := AddRelations(relations, pairs);
      (forall i | 0 <= i < |pairs| :: pairs[i] in r) &&
      (forall x | x in relations :: x in r) &&
      (forall x | x in r :: x in relations || x in pairs) &&
      (NoDuplicates(relations) ==> NoDuplicates(r))
    decreases |pairs|
  {
    if pairs != [] {
      var next := if pairs[0] in relations then relations else relations + [pairs[0]];
      var rest := pairs[1..];
      assert forall i | 1 <= i < |pairs| :: pairs[i] == rest[i - 1];
      AddRelationsSpec(next, rest);
      if NoDuplicates(relations) && pairs[0] !in relations {
        forall a, b | 0 <= a < b < |next| ensures Differ(next, a, b) {
          if b < |relations| {
            assert Differ(relations, a, b);
          } else {
            assert next[a] == relations[a];
          }
        }
      }
    }
  }

  /** Setting the unique vertex of each potential corner's vertex to its value, in order. */
  function SetEnds(m: map<MeshVertex, nat>, ends: seq<LineEnd>, values: seq<nat>): map<MeshVertex, nat>
    requires |values| == |ends|
    decreases |ends|
  {
    if ends == [] then m
    else SetEnds(m[EndVertex(ends[0]) := values[0]], ends[1..], values[1..])
  }

  /**
   * After setting, every potential corner's vertex has a unique vertex,
   * the other entries are unchanged, and nothing else appears.
   */
  lemma {:induction false} SetEndsKeeps(m: map<MeshVertex, nat>, ends: seq<LineEnd>, values: seq<nat>)
    requires |values| == |ends|
    ensures var r := SetEnds(m, ends, values);
      (forall c | 0 <= c < |ends| :: EndVertex(ends[c]) in r) &&
      (forall k | k in r :: k in m || exists c | 0 <= c < |ends| :: k == EndVertex(ends[c])) &&
      (forall k | k in m && (forall c | 0 <= c < |ends| :: k != EndVertex(ends[c])) :: k in r && r[k] == m[k])
    decreases |ends|
  {
    if ends != [] {
      var rest, vs := ends[1..], values[1..];
      assert forall c | 1 <= c < |ends| :: ends[c] == rest[c - 1];
      SetEndsKeeps(m[EndVertex(ends[0]) := values[0]], rest, vs);
      var r := SetEnds(m, ends, values);
      forall k | k in r ensures k in m || exists c | 0 <= c < |ends| :: k == EndVertex(ends[c]) {
        if k !in m && k != EndVertex(ends[0]) {
          var c :| 0 <= c < |rest| && k == EndVertex(rest[c]);
          assert k == EndVertex(ends[c + 1]);
        }
      }
    }
  }

  /** Values below a bound give every potential corner's vertex a unique vertex below it. */
  lemma {:induction false} SetEndsBounded(m: map<MeshVertex, nat>, ends: seq<LineEnd>, values: seq<nat>, bound: nat)
    requires |values| == |ends| && forall c | 0 <= c < |values| :: values[c] < bound
    ensures var r := SetEnds(m, ends, values);
      forall c | 0 <= c < |ends| :: EndVertex(ends[c]) in r && r[EndVertex(ends[c])] < bound
    decreases |ends|
  {
    if ends != [] {
      var rest, vs := ends[1..], values[1..];
      assert forall c | 1 <= c < |ends| :: ends[c] == rest[c - 1] && values[c] == vs[c - 1];
      var next := m[EndVertex(ends[0]) := values[0]];
      SetEndsBounded(next, rest, vs, bound);
      SetEndsKeeps(next, rest, vs);
    }
  }

  /** A potential corner that no later one shares a vertex with sets that vertex's value. */
  lemma {:induction false} SetEndsLast(m: map<MeshVertex, nat>, ends: seq<LineEnd>, values: seq<nat>, c: nat)
    requires |values| == |ends| && c < |ends|
    requires forall d | c < d < |ends| :: EndVertex(ends[d]) != EndVertex(ends[c])
    ensures var r := SetEnds(m, ends, values);
      EndVertex(ends[c]) in r && r[EndVertex(ends[c])] == values[c]
    decreases |ends|
  {
    var rest, vs := ends[1..], values[1..];
    assert forall d | 1 <= d < |ends| :: ends[d] == rest[d - 1] && values[d] == vs[d - 1];
    var next := m[EndVertex(ends[0]) := values[0]];
    if c == 0 {
      SetEndsKeeps(next, rest, vs);
    } else {
      SetEndsLast(next, rest, vs, c - 1);
    }
  }

  /**
   * Setting the potential corners' vertices to values below `bound` keeps
   * every unique vertex below `n` when `bound` is at most `n`.
   */
  lemma BoundedAfterEnds(mid: map<MeshVertex, nat>, after: map<MeshVertex, nat>, ends: seq<LineEnd>, n: nat, bound: nat)
    requires bound <= n && forall k | k in mid :: mid[k] < n
    requires forall c | 0 <= c < |ends| :: EndVertex(ends[c]) in after && after[EndVertex(ends[c])] < bound
    requires forall k | k in after :: k in mid || exists c | 0 <= c < |ends| :: k == EndVertex(ends[c])
    requires forall k | k in mid && (forall c | 0 <= c < |ends| :: k != EndVertex(ends[c])) :: k in after && after[k] == mid[k]
    ensures forall k | k in after :: after[k] < n
  {
    forall k | k in after ensures after[k] < n {
      if exists c | 0 <= c < |ends| :: k == EndVertex(ends[c]) {
        var c :| 0 <= c < |ends| && k == EndVertex(ends[c]);
      }
    }
  }

  /**
   * Each potential corner's vertex has the same unique vertex as corner
   * `base` plus its group index.
   */
  predicate EndsShareCorners(m: map<MeshVertex, nat>, ends: seq<LineEnd>, mapping: seq<nat>, base: nat)
    requires |mapping| == |ends|
  {
    forall c | 0 <= c < |ends| ::
      EndVertex(ends[c]) in m && CornerVertex(base + mapping[c]) in m &&
      m[EndVertex(ends[c])] == m[CornerVertex(base + mapping[c])]
  }

  /**
   * When the corner of each group's index holds that index as unique
   * vertex, setting the potential corners' vertices to their group index
   * makes each line end share its corner's unique vertex, and later
   * additions that keep existing entries keep this.
   */
  lemma SetEndsSharesCorners(lines: seq<Polyline>, ends: seq<LineEnd>, mapping: seq<nat>,
                         mid: map<MeshVertex, nat>, before: map<MeshVertex, nat>, after: map<MeshVertex, nat>, base: nat)
    requires LinesWithEnds(lines, ends) && |mapping| == |ends|
    requires forall c | 0 <= c < |ends| :: CornerVertex(base + mapping[c]) in mid && mid[CornerVertex(base + mapping[c])] == mapping[c]
    requires before == SetEnds(mid, ends, mapping)
    requires forall k | k in before :: k in after && after[k] == before[k]
    ensures EndsShareCorners(after, ends, mapping, base)
  {
    SetEndsKeeps(mid, ends, mapping);
    forall c | 0 <= c < |ends|
      ensures EndVertex(ends[c]) in after && CornerVertex(base + mapping[c]) in after
      ensures after[EndVertex(ends[c])] == after[CornerVertex(base + mapping[c])]
    {
      forall d | c < d < |ends| ensures EndVertex(ends[d]) != EndVertex(ends[c]) {
        EndsDistinct(lines, ends, c, d);
      }
      SetEndsLast(mid, ends, mapping, c);
    }
  }

  /** Corners `base` to `base + count - 1` given unique vertices `first` to `first + count - 1`, in order. */
  function NewCorners(m: map<MeshVertex, nat>, base: nat, first: nat, count: nat): map<MeshVertex, nat>
  {
    if count == 0 then m
    else NewCorners(m, base, first, count - 1)[CornerVertex(base + count - 1) := first + count - 1]
  }

  /**
   * The new corners hold their unique vertices, every other entry is
   * unchanged, and nothing else appears.
   */
  lemma {:induction false} NewCornersSpec(m: map<MeshVertex, nat>, base: nat, first: nat, count: nat)
    ensures var r := NewCorners(m, base, first, count);
      (forall u | base <= u < base + count :: CornerVertex(u) in r && r[CornerVertex(u)] == first + (u - base)) &&
      (forall k | k in r :: k in m || (k.CornerVertex? && base <= k.corner < base + count)) &&
      (forall k | k in m && !(k.CornerVertex? && base <= k.corner < base + count) :: k in r && r[k] == m[k])
  {
    if count > 0 {
      NewCornersSpec(m, base, first, count - 1);
    }
  }

  /**
   * The relations `build_corner_line_relations` leaves are kept free of
   * repeats, hold each line's corners, and hold nothing else new.
   */
  lemma RelationFacts(ends: seq<LineEnd>, info: Colocation, cornerIds: seq<nat>, base: nat,
                      relations0: seq<(nat, nat)>, relations: seq<(nat, nat)>)
    requires ValidColocation(info, |ends|)
    requires |cornerIds| == |info.uniquePoints| && forall u | 0 <= u < |cornerIds| :: cornerIds[u] == base + u
    requires relations == AddRelations(relations0, CornerLinePairs(ends, info, cornerIds))
    ensures NoDuplicates(relations0) ==> NoDuplicates(relations)
    ensures forall c | 0 <= c < |ends| :: (base + info.mapping[c], ends[c].line) in relations
    ensures forall r | r in relations :: r in relations0 || exists c | 0 <= c < |ends| :: r == (base + info.mapping[c], ends[c].line)
  {
    var pairs := CornerLinePairs(ends, info, cornerIds);
    AddRelationsSpec(relations0, pairs);
    assert forall c | 0 <= c < |ends| :: pairs[c] == (base + info.mapping[c], ends[c].line);
  }

  /**
   * After the corners, the line ends and the line vertices are given
   * unique vertices, every line vertex has one and every unique vertex in
   * use has been created.
   */
  lemma UniqueVertexFacts(lines: seq<Polyline>, ends: seq<LineEnd>, info: Colocation,
                          m0: map<MeshVertex, nat>, n0: nat, base: nat,
                          mid: map<MeshVertex, nat>, before: map<MeshVertex, nat>, after: map<MeshVertex, nat>, n: nat)
    requires ValidColocation(info, |ends|)
    requires forall k | k in m0 :: m0[k] < n0
    requires mid == NewCorners(m0, base, n0, |info.uniquePoints|)
    requires before == SetEnds(mid, ends, info.mapping)
    requires (after, n) == Fill(before, n0 + |info.uniquePoints|, LineVertices(lines, 0, 0))
    ensures forall k | k in after :: after[k] < n
    ensures forall k | k in before :: k in after && after[k] == before[k]
    ensures forall i, v | 0 <= i < |lines| && 0 <= v < |lines[i].points| :: LineVertex(i, v) in after
  {
    var n1 := n0 + |info.uniquePoints|;
    assert forall k | k in before :: before[k] < n1 by {
      NewCornersBounded(m0, base, n0, |info.uniquePoints|);
      SetEndsKeeps(mid, ends, info.mapping);
      SetEndsBounded(mid, ends, info.mapping, |info.uniquePoints|);
      BoundedAfterEnds(mid, before, ends, n1, |info.uniquePoints|);
    }
    assert (forall k | k in after :: after[k] < n) && (forall k | k in before :: k in after && after[k] == before[k]) by {
      FillAssigns(before, n1, LineVertices(lines, 0, 0));
    }
    FillCoversLines(lines, before, n1, after, n);
  }

  /** Filling from the line vertices gives every line vertex a unique vertex. */
  lemma FillCoversLines(lines: seq<Polyline>, m: map<MeshVertex, nat>, n: nat, after: map<MeshVertex, nat>, n': nat)
    requires (after, n') == Fill(m, n, LineVertices(lines, 0, 0))
    requires forall k | k in m :: m[k] < n
    ensures forall i, v | 0 <= i < |lines| && 0 <= v < |lines[i].points| :: LineVertex(i, v) in after
  {
    var keys := LineVertices(lines, 0, 0);
    FillAssigns(m, n, keys);
    forall i, v | 0 <= i < |lines| && 0 <= v < |lines[i].points|
      ensures LineVertex(i, v) in after
    {
      LineVertexListed(lines, 0, 0, i, v);
      var p :| 0 <= p < |keys| && keys[p] == LineVertex(i, v);
    }
  }

  /** New corners take unique vertices below `first + count`, so the bound grows with them. */
  lemma NewCornersBounded(m: map<MeshVertex, nat>, base: nat, first: nat, count: nat)
    requires forall k | k in m :: m[k] < first
    ensures var r := NewCorners(m, base, first, count);
      forall k | k in r :: r[k] < first + count
  {
    var r := NewCorners(m, base, first, count);
    NewCornersSpec(m, base, first, count);
    forall k | k in r ensures r[k] < first + count {
      if k !in m || (k.CornerVertex? && base <= k.corner < base + count) {
        assert k.CornerVertex? && base <= k.corner < base + count;
        assert r[CornerVertex(k.corner)] == first + (k.corner - base);
      }
    }
  }

  /**
   * With no unique vertex before, each corner's unique vertex is its group
   * index, so each line end, given its group index, shares the unique
   * vertex of the corner it is attached to.
   */
  lemma SharedCornerFacts(lines: seq<Polyline>, ends: seq<LineEnd>, info: Colocation, m0: map<MeshVertex, nat>, base: nat,
                          mid: map<MeshVertex, nat>, before: map<MeshVertex, nat>, after: map<MeshVertex, nat>)
    requires ValidColocation(info, |ends|) && LinesWithEnds(lines, ends)
    requires mid == NewCorners(m0, base, 0, |info.uniquePoints|)
    requires before == SetEnds(mid, ends, info.mapping)
    requires forall k | k in before :: k in after && after[k] == before[k]
    ensures EndsShareCorners(after, ends, info.mapping, base)
  {
    NewCornersSpec(m0, base, 0, |info.uniquePoints|);
    forall c | 0 <= c < |ends|
      ensures CornerVertex(base + info.mapping[c]) in mid && mid[CornerVertex(base + info.mapping[c])] == info.mapping[c]
    {
      var u := base + info.mapping[c];
      assert CornerVertex(u) in mid && mid[CornerVertex(u)] == 0 + (u - base);
    }
    SetEndsSharesCorners(lines, ends, info.mapping, mid, before, after, base);
  }

  /** The topological part of the section that `build_topology` fills. */
  class SectionTopology {
    /** The point of each corner's mesh, by corner index. */
    var corners: seq<Point>
    /** The number of unique vertices created so far. */
    var nbUnique: nat
    /** The unique vertex of each mesh vertex that has one. */
    var uniqueOf: map<MeshVertex, nat>
    /** Corner-line boundary relations, as (corner, line). */
    var relations: seq<(nat, nat)>

    /** Every unique vertex in use has been created. */
    predicate Bounded()
      reads this
    {
      forall k | k in uniqueOf :: uniqueOf[k] < nbUnique
    }

    /** The created unique vertices bound those in use, and no relation is repeated. */
    predicate Valid()
      reads this
    {
      Bounded() && NoDuplicates(relations)
    }

    constructor()
      ensures corners == [] && nbUnique == 0 && uniqueOf == map[] && relations == []
      ensures Valid()
    {
      corners := [];
      nbUnique := 0;
      uniqueOf := map[];
      relations := [];
    }

    /**
     * `create_corners`: a corner per unique point, with its point and a new
     * unique vertex; the corner ids are returned in order.
     */
    method CreateCorners(info: Colocation) returns (cornerIds: seq<nat>)
      modifies this`corners, this`nbUnique, this`uniqueOf
      ensures corners == old(corners) + info.uniquePoints
      ensures nbUnique == old(nbUnique) + |info.uniquePoints|
      ensures |cornerIds| == |info.uniquePoints|
      ensures forall u | 0 <= u < |cornerIds| :: cornerIds[u] == |old(corners)| + u
      ensures uniqueOf == NewCorners(old(uniqueOf), |old(corners)|, old(nbUnique), |info.uniquePoints|)
    {
      cornerIds := [];
      for u := 0 to |info.uniquePoints|
        invariant corners == old(corners) + info.uniquePoints[..u]
        invariant nbUnique == old(nbUnique) + u
        invariant |cornerIds| == u
        invariant forall w | 0 <= w < u :: cornerIds[w] == |old(corners)| + w
        invariant uniqueOf == NewCorners(old(uniqueOf), |old(corners)|, old(nbUnique), u)
      {
        var corner := |corners|;
        corners := corners + [info.uniquePoints[u]];
        var uv := nbUnique;
        nbUnique := nbUnique + 1;
        uniqueOf := uniqueOf[CornerVertex(corner) := uv];
        cornerIds := cornerIds + [corner];
      }
      assert info.uniquePoints[..|info.uniquePoints|] == info.uniquePoints;
    }

    /**
     * `build_corner_line_relations`: each potential corner attaches its
     * line to the corner of its group, unless that relation exists, and
     * the line's end vertex gets the group index as unique vertex (the
     * last potential corner on a vertex wins).
     */
    method BuildCornerLineRelations(ends: seq<LineEnd>, info: Colocation, cornerIds: seq<nat>)
      requires ValidColocation(info, |ends|) && |cornerIds| == |info.uniquePoints|
      modifies this`relations, this`uniqueOf
      ensures relations == AddRelations(old(relations), CornerLinePairs(ends, info, cornerIds))
      ensures uniqueOf == SetEnds(old(uniqueOf), ends, info.mapping)
    {
      ghost var pairs := CornerLinePairs(ends, info, cornerIds);
      ghost var goalRelations := AddRelations(relations, pairs);
      ghost var goalUnique := SetEnds(uniqueOf, ends, info.mapping);
      for c := 0 to |ends|
        invariant AddRelations(relations, pairs[c..]) == goalRelations
        invariant SetEnds(uniqueOf, ends[c..], info.mapping[c..]) == goalUnique
      {
        var mapped := info.mapping[c];
        var pair := (cornerIds[mapped], ends[c].line);
        assert pairs[c..][0] == pair && pairs[c..][1..] == pairs[c + 1..];
        assert ends[c..][1..] == ends[c + 1..] && info.mapping[c..][1..] == info.mapping[c + 1..];
        if pair !in relations {
          relations := relations + [pair];
        }
        uniqueOf := uniqueOf[EndVertex(ends[c]) := mapped];
      }
    }

    /**
     * `create_line_unique_vertices`: every vertex of every line that has
     * no unique vertex yet gets a new one, line after line.
     */
    method CreateLineUniqueVertices(lines: seq<Polyline>)
      modifies this`nbUnique, this`uniqueOf
      ensures (uniqueOf, nbUnique) == Fill(old(uniqueOf), old(nbUnique), LineVertices(lines, 0, 0))
    {
      ghost var goal := Fill(uniqueOf, nbUnique, LineVertices(lines, 0, 0));
      for i := 0 to |lines|
        invariant Fill(uniqueOf, nbUnique, LineVertices(lines, i, 0)) == goal
      {
        for v := 0 to |lines[i].points|
          invariant Fill(uniqueOf, nbUnique, LineVertices(lines, i, v)) == goal
        {
          var vertex := LineVertex(i, v);
          if vertex !in uniqueOf {
            uniqueOf := uniqueOf[vertex := nbUnique];
            nbUnique := nbUnique + 1;
          }
        }
      }
    }

    /**
     * `build_topology` after the colocation search: corners, corner-line
     * relations, then the unique vertices of the remaining line vertices.
     * Every line vertex ends up with a unique vertex, each line is attached
     * to the corner of each of its ends' groups and, when the section had
     * no unique vertex before, each line end shares the unique vertex of
     * that corner.
     */
    method BuildTopology(lines: seq<Polyline>, ends: seq<LineEnd>, info: Colocation)
      requires ValidColocation(info, |ends|) && LinesWithEnds(lines, ends) && Valid()
      modifies this
      ensures Valid()
      ensures corners == old(corners) + info.uniquePoints
      ensures forall i, v | 0 <= i < |lines| && 0 <= v < |lines[i].points| :: LineVertex(i, v) in uniqueOf
      ensures forall c | 0 <= c < |ends| :: (|old(corners)| + info.mapping[c], ends[c].line) in relations
      ensures forall r | r in relations :: r in old(relations) || exists c | 0 <= c < |ends| ::
        r == (|old(corners)| + info.mapping[c], ends[c].line)
      ensures old(nbUnique) == 0 ==> EndsShareCorners(uniqueOf, ends, info.mapping, |old(corners)|)
    {
      ghost var m0, n0, relations0 := uniqueOf, nbUnique, relations;
      var cornerIds := CreateCorners(info);
      ghost var mid := uniqueOf;
      BuildCornerLineRelations(ends, info, cornerIds);
      ghost var before := uniqueOf;
      CreateLineUniqueVertices(lines);
      RelationFacts(ends, info, cornerIds, |old(corners)|, relations0, relations);
      UniqueVertexFacts(lines, ends, info, m0, n0, |old(corners)|, mid, before, uniqueOf, nbUnique);
      if n0 == 0 {
        SharedCornerFacts(lines, ends, info, m0, |old(corners)|, mid, before, uniqueOf);
      }
    }
  }
}
