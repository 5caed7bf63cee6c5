/**
 * `filter_duplicated_vertices`: every element the MSH reader adds gets
 * fresh local vertices, so a component ends up with several local vertices
 * linked to the same unique vertex. The filter keeps the first local vertex
 * of each unique vertex, points the cells at it, deletes the others and
 * compacts the numbering.
 */
module MshDuplicates {
  import opened BRepModel

  predicate NoDuplicates(s: seq<nat>)
  {
    forall i, j | 0 <= i < j < |s| :: s[i] != s[j]
  }

  function Elements(s: seq<nat>): set<nat>
  {
    set x | x in s
  }

  /** Position of the first occurrence of `x` in `s`. */
  function IndexOf(s: seq<nat>, x: nat): (i: nat)
    requires x in s
    ensures i < |s| && s[i] == x && x !in s[..i]
  {
    if s[0] == x then 0
    else
      var j := IndexOf(s[1..], x);
      assert s[..j + 1] == [s[0]] + s[1..][..j];
      j + 1
  }

  /** The values of `s` in order of first occurrence, each once. */
  function Dedup(s: seq<nat>): (r: seq<nat>)
    ensures |r| <= |s|
  {
    if s == [] then []
    else
      var r := Dedup(s[..|s| - 1]);
      if s[|s| - 1] in r then r else r + [s[|s| - 1]]
  }

  lemma {:induction false} DedupElements(s: seq<nat>)
    ensures Elements(Dedup(s)) == Elements(s)
    ensures forall x :: x in Dedup(s) <==> x in s
  {
    if s != [] {
      var p := s[..|s| - 1];
      DedupElements(p);
      assert s == p + [s[|s| - 1]];
    }
  }

  lemma {:induction false} DedupNoDuplicates(s: seq<nat>)
    ensures NoDuplicates(Dedup(s))
  {
    if s != [] {
      DedupNoDuplicates(s[..|s| - 1]);
    }
  }

  /** A duplicate-free sequence has as many entries as it has distinct values. */
  lemma {:induction false} NoDuplicatesCardinality(s: seq<nat>)
    requires NoDuplicates(s)
    ensures |Elements(s)| == |s|
  {
    if s != [] {
      var p := s[..|s| - 1];
      NoDuplicatesCardinality(p);
      assert Elements(s) == Elements(p) + {s[|s| - 1]};
      assert s[|s| - 1] !in Elements(p);
    }
  }

  /**
   * After filtering, a component has no two local vertices on the same
   * unique vertex, keeps exactly the unique vertices it had, and has as
   * many local vertices as distinct unique vertices.
   */
  lemma DedupProperties(s: seq<nat>)
    ensures NoDuplicates(Dedup(s))
    ensures Elements(Dedup(s)) == Elements(s)
    ensures |Dedup(s)| == |Elements(s)|
  {
    DedupNoDuplicates(s);
    DedupElements(s);
    NoDuplicatesCardinality(Dedup(s));
  }

  /** The survivors keep the relative order of their first occurrences. */
  lemma {:induction false} DedupOrder(s: seq<nat>, i: nat, j: nat)
    requires i < j < |Dedup(s)|
    ensures Dedup(s)[i] in s && Dedup(s)[j] in s
    ensures IndexOf(s, Dedup(s)[i]) < IndexOf(s, Dedup(s)[j])
  {
    DedupElements(s);
    var p := s[..|s| - 1];
    var last := s[|s| - 1];
    DedupElements(p);
    assert s == p + [last];
    if j < |Dedup(p)| {
      DedupOrder(p, i, j);
      IndexOfPrefix(p, last, Dedup(s)[i]);
      IndexOfPrefix(p, last, Dedup(s)[j]);
    } else {
      // Dedup(s)[j] is `last`, new in s, so its first occurrence is at the end.
      assert Dedup(s)[j] == last && last !in p;
      IndexOfPrefix(p, last, Dedup(s)[i]);
      assert IndexOf(s, last) == |p| by {
        assert s[..|p|] == p;
      }
    }
  }

  lemma IndexOfPrefix(p: seq<nat>, last: nat, x: nat)
    requires x in p
    ensures x in p + [last] && IndexOf(p + [last], x) == IndexOf(p, x)
  {
    var s := p + [last];
    var k := IndexOf(p, x);
    assert s[..k] == p[..k];
    IndexOfUnique(s, x, k);
  }

  /** A position holding `x` with no `x` before it is the first occurrence. */
  lemma IndexOfUnique(s: seq<nat>, x: nat, i: nat)
    requires i < |s| && s[i] == x && x !in s[..i]
    ensures IndexOf(s, x) == i
  {
    var m := IndexOf(s, x);
    if m < i {
      assert false;
    } else if m > i {
      assert false;
    }
  }

  /** Dedup grows like the reading loop: a value is appended the first time it is seen. */
  lemma DedupStep(s: seq<nat>, i: nat)
    requires i < |s|
    ensures Dedup(s[..i + 1]) == if s[i] in s[..i] then Dedup(s[..i]) else Dedup(s[..i]) + [s[i]]
  {
    assert s[..i + 1][..i] == s[..i];
    DedupElements(s[..i]);
  }

  /**
   * First pass of `filter_duplicated_vertices`: the first local vertex of
   * every unique vertex, and the deletion mark of every local vertex (the
   * source groups local vertices per unique vertex and marks all but the
   * first of each group, which is the same marking).
   */
  method MarkDuplicates(u: seq<nat>) returns (first: map<nat, nat>, deleted: seq<bool>)
    ensures |deleted| == |u|
    ensures first.Keys == Elements(u)
    ensures forall x | x in first :: first[x] == IndexOf(u, x)
    ensures forall w | 0 <= w < |u| :: deleted[w] <==> u[w] in u[..w]
  {
    first := map[];
    deleted := [];
    var v := 0;
    while v < |u|
      invariant v <= |u| && |deleted| == v
      invariant FirstOccurrences(u, v, first)
      invariant forall w | 0 <= w < v :: deleted[w] <==> u[w] in u[..w]
    {
      var seen := u[v] in first;
      FirstOccurrencesStep(u, v, first);
      if !seen {
        first := first[u[v] := v];
      }
      deleted := deleted + [seen];
      v := v + 1;
    }
    assert u[..|u|] == u;
    forall x | x in first
      ensures first[x] == IndexOf(u, x)
    {
      IndexOfUnique(u, x, first[x]);
    }
  }

  /** `first` maps every value of `u[..v]` to the position of its first occurrence. */
  ghost predicate FirstOccurrences(u: seq<nat>, v: nat, first: map<nat, nat>)
    requires v <= |u|
  {
    && first.Keys == Elements(u[..v])
    && forall x | x in first :: first[x] < v && u[first[x]] == x && x !in u[..first[x]]
  }

  /** One more position: a value already seen keeps its entry, a new one is recorded there. */
  lemma FirstOccurrencesStep(u: seq<nat>, v: nat, first: map<nat, nat>)
    requires v < |u| && FirstOccurrences(u, v, first)
    ensures u[v] in first <==> u[v] in u[..v]
    ensures FirstOccurrences(u, v + 1, if u[v] in first then first else first[u[v] := v])
  {
    var x := u[v];
    assert u[..v + 1] == u[..v] + [x];
    assert Elements(u[..v + 1]) == Elements(u[..v]) + {x};
  }

  /**
   * Second pass: the unique vertex of every kept local vertex in order, and
   * the position every kept local vertex has once the deleted ones are
   * removed.
   */
  method KeptVertices(u: seq<nat>, deleted: seq<bool>) returns (kept: seq<nat>, newIndex: map<nat, nat>)
    requires |deleted| == |u|
    requires forall w | 0 <= w < |u| :: deleted[w] <==> u[w] in u[..w]
    ensures kept == Dedup(u)
    ensures forall w :: w in newIndex <==> 0 <= w < |u| && !deleted[w]
    ensures forall w | w in newIndex :: newIndex[w] < |kept| && kept[newIndex[w]] == u[w]
  {
    kept := [];
    newIndex := map[];
    var i := 0;
    while i < |u|
      invariant i <= |u|
      invariant Renumbered(u, deleted, i, kept, newIndex)
    {
      RenumberedStep(u, deleted, i, kept, newIndex);
      if !deleted[i] {
        newIndex := newIndex[i := |kept|];
        kept := kept + [u[i]];
      }
      i := i + 1;
    }
    assert u[..|u|] == u;
  }

  /** `kept` and `newIndex` after the first `i` local vertices. */
  ghost predicate Renumbered(u: seq<nat>, deleted: seq<bool>, i: nat, kept: seq<nat>, newIndex: map<nat, nat>)
    requires i <= |u| == |deleted|
  {
    && kept == Dedup(u[..i])
    && (forall w :: w in newIndex <==> 0 <= w < i && !deleted[w])
    && (forall w | w in newIndex :: newIndex[w] < |kept| && kept[newIndex[w]] == u[w])
  }

  lemma RenumberedStep(u: seq<nat>, deleted: seq<bool>, i: nat, kept: seq<nat>, newIndex: map<nat, nat>)
    requires i < |u| == |deleted|
    requires forall w | 0 <= w < |u| :: deleted[w] <==> u[w] in u[..w]
    requires Renumbered(u, deleted, i, kept, newIndex)
    ensures deleted[i] ==> Renumbered(u, deleted, i + 1, kept, newIndex)
    ensures !deleted[i] ==> Renumbered(u, deleted, i + 1, kept + [u[i]], newIndex[i := |kept|])
  {
    DedupStep(u, i);
    assert deleted[i] <==> u[i] in u[..i];
    if !deleted[i] {
      RenumberedKeep(u, deleted, i, kept, newIndex);
    } else {
      RenumberedSkip(u, deleted, i, kept, newIndex);
    }
  }

  /** A deleted vertex changes neither `kept` nor the numbering. */
  lemma RenumberedSkip(u: seq<nat>, deleted: seq<bool>, i: nat, kept: seq<nat>, newIndex: map<nat, nat>)
    requires i < |u| == |deleted| && deleted[i]
    requires Dedup(u[..i + 1]) == kept
    requires Renumbered(u, deleted, i, kept, newIndex)
    ensures Renumbered(u, deleted, i + 1, kept, newIndex)
  {
  }

  /** A kept vertex is appended to `kept` and numbered with its position there. */
  lemma RenumberedKeep(u: seq<nat>, deleted: seq<bool>, i: nat, kept: seq<nat>, newIndex: map<nat, nat>)
    requires i < |u| == |deleted| && !deleted[i]
    requires Dedup(u[..i + 1]) == kept + [u[i]]
    requires Renumbered(u, deleted, i, kept, newIndex)
    ensures Renumbered(u, deleted, i + 1, kept + [u[i]], newIndex[i := |kept|])
  {
    var kept', newIndex' := kept + [u[i]], newIndex[i := |kept|];
    forall w | w in newIndex'
      ensures newIndex'[w] < |kept'| && kept'[newIndex'[w]] == u[w]
    {
      if w != i {
        assert kept'[newIndex[w]] == kept[newIndex[w]];
      }
    }
  }

  /**
   * Points every cell corner `w` of `c` at `target[w]`, a vertex of the
   * compacted numbering with the same unique vertex.
   */
  method RemapCells(c: Component, target: map<nat, nat>, kept: seq<nat>) returns (cells: seq<Cell>)
    requires WellFormed(c)
    requires forall w | 0 <= w < |c.uniqueOf| :: w in target && target[w] < |kept| && kept[target[w]] == c.uniqueOf[w]
    ensures |cells| == |c.cells|
    ensures forall a | 0 <= a < |c.cells| ::
      |cells[a].vertices| == |c.cells[a].vertices| && cells[a].faces == c.cells[a].faces
    ensures forall a, k | 0 <= a < |c.cells| && 0 <= k < |cells[a].vertices| ::
      cells[a].vertices[k] < |kept| && kept[cells[a].vertices[k]] == c.uniqueOf[c.cells[a].vertices[k]]
  {
    cells := [];
    var j := 0;
    while j < |c.cells|
      invariant j <= |c.cells| && |cells| == j
      invariant forall a | 0 <= a < j ::
        |cells[a].vertices| == |c.cells[a].vertices| && cells[a].faces == c.cells[a].faces
      invariant forall a, k | 0 <= a < j && 0 <= k < |cells[a].vertices| ::
        cells[a].vertices[k] < |kept| && kept[cells[a].vertices[k]] == c.uniqueOf[c.cells[a].vertices[k]]
    {
      var cell := c.cells[j];
      var vs := seq(|cell.vertices|, k requires 0 <= k < |cell.vertices| => target[cell.vertices[k]]);
      cells := cells + [Cell(vs, cell.faces)];
      j := j + 1;
    }
  }

  /**
   * For every local vertex, its replacement in the compacted numbering: the
   * first local vertex with the same unique vertex, renumbered.
   */
  method CompactionTarget(u: seq<nat>) returns (kept: seq<nat>, target: map<nat, nat>)
    ensures kept == Dedup(u)
    ensures forall w | 0 <= w < |u| :: w in target && target[w] < |kept| && kept[target[w]] == u[w]
  {
    var first, deleted := MarkDuplicates(u);
    var newIndex;
    kept, newIndex := KeptVertices(u, deleted);
    forall w | 0 <= w < |u|
      ensures u[w] in first && first[u[w]] in newIndex
      ensures newIndex[first[u[w]]] < |kept| && kept[newIndex[first[u[w]]]] == u[w]
    {
      var f := first[u[w]];
      assert u[f] == u[w] && u[w] !in u[..f];
      assert !deleted[f];
    }
    target := map w | 0 <= w < |u| :: newIndex[first[u[w]]];
  }

  /**
   * What `filter_duplicated_vertices` makes of component `c`: `r` keeps one
   * local vertex per unique vertex, in order of first occurrence, and the
   * same cells, each corner now on the kept local vertex of the unique
   * vertex it had.
   */
  predicate Filtered(c: Component, r: Component)
  {
    && r.uniqueOf == Dedup(c.uniqueOf)
    && WellFormed(r)
    && |r.cells| == |c.cells|
    && (forall i | 0 <= i < |c.cells| ::
          |r.cells[i].vertices| == |c.cells[i].vertices| && r.cells[i].faces == c.cells[i].faces)
    && (forall i, k | 0 <= i < |c.cells| && 0 <= k < |c.cells[i].vertices| && WellFormed(c) ::
          r.uniqueOf[r.cells[i].vertices[k]] == c.uniqueOf[c.cells[i].vertices[k]])
  }

  /**
   * `filter_duplicated_vertices` on one component: every cell corner is
   * pointed at the first local vertex of its unique vertex, the later
   * duplicates are deleted and the numbering is compacted.
   */
  method FilterDuplicatedVertices(c: Component) returns (r: Component)
    requires WellFormed(c)
    ensures Filtered(c, r)
  {
    var kept, target := CompactionTarget(c.uniqueOf);
    var cells := RemapCells(c, target, kept);
    r := Component(kept, cells);
  }
}
