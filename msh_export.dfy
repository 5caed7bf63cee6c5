/**
 * The rule by which the MSH writer exports unique vertices as nodes.
 * Components are visited in a fixed order; each one exports, in local
 * vertex order, those of its vertices whose unique vertex no earlier
 * component exported, and then marks them as exported. Here a component
 * is seen only through its list of unique vertices (`uniqueOf`), and the
 * visited components through the list of those lists.
 */
module MshExport {

  /** Every unique vertex the lists refer to is below `nb`. */
  predicate Bounded(us: seq<seq<nat>>, nb: nat)
  {
    forall k, v | 0 <= k < |us| && 0 <= v < |us[k]| :: us[k][v] < nb
  }

  /** No two local vertices of one component share a unique vertex. */
  predicate Distinct(u: seq<nat>)
  {
    forall a, c | 0 <= a < c < |u| :: u[a] != u[c]
  }

  /** No list links two of its local vertices to the same unique vertex. */
  predicate AllDistinct(us: seq<seq<nat>>)
  {
    forall k | 0 <= k < |us| :: Distinct(us[k])
  }

  /** The unique vertices the visited components use. */
  function Used(us: seq<seq<nat>>): set<nat>
  {
    if us == [] then {}
    else
      var last := us[|us| - 1];
      Used(us[..|us| - 1]) + set v | 0 <= v < |last| :: last[v]
  }

  /** A unique vertex is used iff some local vertex of some visited component is linked to it. */
  lemma {:induction false} UsedIff(us: seq<seq<nat>>)
    ensures forall x :: x in Used(us) <==> exists k, v | 0 <= k < |us| && 0 <= v < |us[k]| :: us[k][v] == x
  {
    if us != [] {
      var init := us[..|us| - 1];
      var last := us[|us| - 1];
      UsedIff(init);
      forall x
        ensures x in Used(us) <==> exists k, v | 0 <= k < |us| && 0 <= v < |us[k]| :: us[k][v] == x
      {
        if x in Used(us) {
          if x in Used(init) {
            var k, v :| 0 <= k < |init| && 0 <= v < |init[k]| && init[k][v] == x;
            assert us[k] == init[k];
          } else {
            var v :| 0 <= v < |last| && last[v] == x;
            assert us[|us| - 1][v] == x;
          }
        }
        if exists k, v | 0 <= k < |us| && 0 <= v < |us[k]| :: us[k][v] == x {
          var k, v :| 0 <= k < |us| && 0 <= v < |us[k]| && us[k][v] == x;
          if k < |init| {
            assert init[k][v] == x;
          }
        }
      }
    }
  }

  /** The exported flags after visiting `us`: a unique vertex is flagged iff a visited component uses it. */
  function Flags(us: seq<seq<nat>>, nb: nat): (r: seq<bool>)
    ensures |r| == nb && forall x | 0 <= x < nb :: r[x] == (x in Used(us))
  {
    seq(nb, x requires 0 <= x < nb => x in Used(us))
  }

  /**
   * The first `n` local vertices of a component whose unique vertex is
   * not flagged, in increasing order: the ones it exports.
   */
  function Fresh(u: seq<nat>, flags: seq<bool>, n: nat): (r: seq<nat>)
    requires n <= |u| && forall v | 0 <= v < |u| :: u[v] < |flags|
    ensures forall v: nat :: v in r <==> v < n && !flags[u[v]]
    ensures |r| <= n && forall a | 0 <= a < |r| :: r[a] < n
  {
    if n == 0 then []
    else Fresh(u, flags, n - 1) + (if !flags[u[n - 1]] then [n - 1] else [])
  }

  /** The fresh local vertices come in increasing order. */
  lemma {:induction false} FreshIncreasing(u: seq<nat>, flags: seq<bool>, n: nat)
    requires n <= |u| && forall v | 0 <= v < |u| :: u[v] < |flags|
    ensures forall a, c | 0 <= a < c < |Fresh(u, flags, n)| :: Fresh(u, flags, n)[a] < Fresh(u, flags, n)[c]
  {
    if n > 0 {
      FreshIncreasing(u, flags, n - 1);
    }
  }

  /** The unique vertices of the local vertices `vs`. */
  function TagUids(u: seq<nat>, vs: seq<nat>): (r: seq<nat>)
    requires forall j | 0 <= j < |vs| :: vs[j] < |u|
    ensures |r| == |vs| && forall j | 0 <= j < |vs| :: r[j] == u[vs[j]]
  {
    seq(|vs|, j requires 0 <= j < |vs| => u[vs[j]])
  }

  /** The unique vertices of a component's fresh vertices, in the order they are exported. */
  function FreshUids(u: seq<nat>, flags: seq<bool>): (r: seq<nat>)
    requires forall v | 0 <= v < |u| :: u[v] < |flags|
  {
    TagUids(u, Fresh(u, flags, |u|))
  }

  /** `flags` with every unique vertex of `xs` set. */
  function Mark(flags: seq<bool>, xs: seq<nat>): (r: seq<bool>)
    ensures |r| == |flags| && forall x | 0 <= x < |flags| :: r[x] == (flags[x] || x in xs)
  {
    seq(|flags|, x requires 0 <= x < |flags| => flags[x] || x in xs)
  }

  /** Marking one more unique vertex sets its flag. */
  lemma MarkStep(flags: seq<bool>, xs: seq<nat>, j: nat)
    requires j < |xs| && xs[j] < |flags|
    ensures Mark(flags, xs[..j + 1]) == Mark(flags, xs[..j])[xs[j] := true]
  {
    assert xs[..j + 1] == xs[..j] + [xs[j]];
  }

  /**
   * The unique vertices in the order the nodes are written: each visited
   * component's fresh vertices with the flags the earlier ones left.
   */
  function Exported(us: seq<seq<nat>>, nb: nat): (r: seq<nat>)
    requires Bounded(us, nb)
    ensures forall j | 0 <= j < |r| :: r[j] < nb
  {
    if us == [] then []
    else
      var init := us[..|us| - 1];
      assert Bounded(init, nb) by {
        forall k, v | 0 <= k < |init| && 0 <= v < |init[k]| ensures init[k][v] < nb {
          assert init[k] == us[k];
        }
      }
      var last := us[|us| - 1];
      assert forall v | 0 <= v < |last| :: last[v] < nb;
      Exported(init, nb) + FreshUids(last, Flags(init, nb))
  }

  /** A prefix of bounded lists is bounded. */
  lemma BoundedPrefix(us: seq<seq<nat>>, nb: nat, n: nat)
    requires Bounded(us, nb) && n <= |us|
    ensures Bounded(us[..n], nb)
  {
    forall k, v | 0 <= k < n && 0 <= v < |us[..n][k]| ensures us[..n][k][v] < nb {
      assert us[..n][k] == us[k];
    }
  }

  /**
   * Marking the unique vertices a component exported gives the flags
   * after visiting it: the flag array always says which unique vertices
   * the components visited so far use.
   */
  lemma MarkFresh(init: seq<seq<nat>>, u: seq<nat>, nb: nat)
    requires forall v | 0 <= v < |u| :: u[v] < nb
    ensures Mark(Flags(init, nb), FreshUids(u, Flags(init, nb))) == Flags(init + [u], nb)
  {
    var flags := Flags(init, nb);
    var xs := FreshUids(u, flags);
    var vs := Fresh(u, flags, |u|);
    assert (init + [u])[..|init|] == init;
    UsedIff(init);
    UsedIff(init + [u]);
    forall x | 0 <= x < nb
      ensures Mark(flags, xs)[x] == Flags(init + [u], nb)[x]
    {
      if x in Used(init + [u]) && x !in Used(init) {
        var k, v :| 0 <= k < |init + [u]| && 0 <= v < |(init + [u])[k]| && (init + [u])[k][v] == x;
        assert v in vs;
        var j :| 0 <= j < |vs| && vs[j] == v;
        assert xs[j] == x;
      }
      if x in xs {
        var j :| 0 <= j < |xs| && xs[j] == x;
        assert (init + [u])[|init|][vs[j]] == x;
      }
    }
  }

  /**
   * A unique vertex is exported by a component iff the component uses it
   * and no earlier component does: every node is exported by the first
   * component that uses it.
   */
  lemma FreshIsFirstUse(us: seq<seq<nat>>, nb: nat, k: nat, x: nat)
    requires Bounded(us, nb) && k < |us|
    ensures forall v | 0 <= v < |us[k]| :: us[k][v] < nb
    ensures x in FreshUids(us[k], Flags(us[..k], nb)) <==>
      (exists v | 0 <= v < |us[k]| :: us[k][v] == x) &&
      forall j, v | 0 <= j < k && 0 <= v < |us[j]| :: us[j][v] != x
  {
    var flags := Flags(us[..k], nb);
    var xs := FreshUids(us[k], flags);
    var vs := Fresh(us[k], flags, |us[k]|);
    UsedIff(us[..k]);
    if x in xs {
      var j :| 0 <= j < |xs| && xs[j] == x;
      assert !flags[x];
      forall i, v | 0 <= i < k && 0 <= v < |us[i]| ensures us[i][v] != x {
        assert us[..k][i] == us[i];
      }
    }
    if (exists v | 0 <= v < |us[k]| :: us[k][v] == x) && forall j, v | 0 <= j < k && 0 <= v < |us[j]| :: us[j][v] != x {
      var v :| 0 <= v < |us[k]| && us[k][v] == x;
      assert v in vs;
      var j :| 0 <= j < |vs| && vs[j] == v;
      assert xs[j] == x;
    }
  }

  /** Exporting visits the lists one after the other. */
  lemma ExportedSnoc(init: seq<seq<nat>>, u: seq<nat>, nb: nat)
    requires Bounded(init + [u], nb)
    ensures Bounded(init, nb) && forall v | 0 <= v < |u| :: u[v] < nb
    ensures Exported(init + [u], nb) == Exported(init, nb) + FreshUids(u, Flags(init, nb))
  {
    var us := init + [u];
    assert us[..|us| - 1] == init;
    BoundedPrefix(us, nb, |us| - 1);
    assert us[|us| - 1] == u;
  }

  /** Every used unique vertex is below `nb`. */
  lemma UsedBounded(us: seq<seq<nat>>, nb: nat)
    requires Bounded(us, nb)
    ensures forall x | x in Used(us) :: x < nb
  {
    UsedIff(us);
  }

  /** The exported unique vertices are exactly the ones the visited components use. */
  lemma {:induction false} ExportedUsed(us: seq<seq<nat>>, nb: nat)
    requires Bounded(us, nb)
    ensures forall x :: x in Exported(us, nb) <==> x in Used(us)
  {
    UsedBounded(us, nb);
    if us != [] {
      var init := us[..|us| - 1];
      var u := us[|us| - 1];
      assert us == init + [u];
      ExportedSnoc(init, u, nb);
      ExportedUsed(init, nb);
      var flags := Flags(init, nb);
      var xs := FreshUids(u, flags);
      MarkFresh(init, u, nb);
      forall x | 0 <= x < nb
        ensures x in Exported(us, nb) <==> x in Used(us)
      {
        assert Mark(flags, xs)[x] == Flags(init + [u], nb)[x];
      }
    }
  }

  /**
   * When no component repeats a unique vertex, no unique vertex is
   * exported twice.
   */
  lemma {:induction false} ExportedOnce(us: seq<seq<nat>>, nb: nat)
    requires Bounded(us, nb) && AllDistinct(us)
    ensures forall a, c | 0 <= a < c < |Exported(us, nb)| :: Exported(us, nb)[a] != Exported(us, nb)[c]
  {
    if us != [] {
      var init := us[..|us| - 1];
      var u := us[|us| - 1];
      assert us == init + [u];
      ExportedSnoc(init, u, nb);
      assert AllDistinct(init) by {
        forall k | 0 <= k < |init| ensures Distinct(init[k]) {
          assert init[k] == us[k];
        }
      }
      ExportedOnce(init, nb);
      ExportedUsed(init, nb);
      FreshAfterDistinct(Exported(init, nb), u, Flags(init, nb));
    }
  }

  /**
   * Appending the fresh unique vertices of a component that repeats none
   * to distinct exported ones, all flagged, keeps them distinct.
   */
  lemma FreshAfterDistinct(e0: seq<nat>, u: seq<nat>, flags: seq<bool>)
    requires forall v | 0 <= v < |u| :: u[v] < |flags|
    requires Distinct(u) && Distinct(e0)
    requires forall x | x in e0 :: x < |flags| && flags[x]
    ensures Distinct(e0 + FreshUids(u, flags))
  {
    var xs := FreshUids(u, flags);
    var vs := Fresh(u, flags, |u|);
    var e := e0 + xs;
    FreshIncreasing(u, flags, |u|);
    forall a, c | 0 <= a < c < |e| ensures e[a] != e[c] {
      if c >= |e0| {
        var j := c - |e0|;
        assert e[c] == u[vs[j]] && !flags[u[vs[j]]];
        if a >= |e0| {
          assert vs[a - |e0|] < vs[j];
        } else {
          assert e[a] in e0;
        }
      }
    }
  }
}
