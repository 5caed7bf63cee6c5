/**
 * Cells stored the VTK way: a flat connectivity array and, per cell, the
 * running total of the cell sizes (its offset). The readers slice the
 * connectivity by consecutive offsets; the writers produce the running
 * totals and the flattened vertex lists.
 */
module VtkCells {
  /** index_t is a 32-bit unsigned integer. */
  const INDEX_MODULUS: nat := 0x1_0000_0000

  /** static_cast<index_t> of a 64-bit value: the value modulo 2^32. */
  function ToIndex(x: int): (r: nat)
    ensures r < INDEX_MODULUS
    ensures 0 <= x < INDEX_MODULUS ==> r == x
  {
    x % INDEX_MODULUS
  }

  /** Every value fits in index_t. */
  predicate IndexValues(xs: seq<nat>) { forall k | 0 <= k < |xs| :: xs[k] < INDEX_MODULUS }

  /** Each entry of a connectivity slice narrowed to index_t. */
  function Narrow(xs: seq<int>): (r: seq<nat>)
    ensures |r| == |xs|
    ensures forall k | 0 <= k < |xs| :: r[k] == ToIndex(xs[k])
  {
    seq(|xs|, k requires 0 <= k < |xs| => ToIndex(xs[k]))
  }

  /**
   * Offsets the slicing loop can follow: non-decreasing from 0 and within
   * the connectivity array (anything else reads past the array or asks the
   * loop to run backwards).
   */
  predicate WellFormed(offsets: seq<int>, size: nat) {
    (forall p | 0 <= p < |offsets| :: 0 <= offsets[p] <= size) &&
    (forall p | 0 < p < |offsets| :: offsets[p - 1] <= offsets[p])
  }

  /** Where cell p starts: the previous offset, 0 for the first cell. */
  function Start(offsets: seq<int>, p: nat): int
    requires p < |offsets|
  {
    if p == 0 then 0 else offsets[p - 1]
  }

  /** Cell p: the connectivity entries from its start to its offset. */
  function Cell(connectivity: seq<int>, offsets: seq<int>, p: nat): seq<nat>
    requires WellFormed(offsets, |connectivity|) && p < |offsets|
  {
    Narrow(connectivity[Start(offsets, p)..offsets[p]])
  }

  /**
   * get_cell_vertices: one cell per offset; cell p lists, in order, the
   * connectivity entries between the previous offset and its own.
   */
  method GetCellVertices(connectivity: seq<int>, offsets: seq<int>) returns (cells: seq<seq<nat>>)
    requires WellFormed(offsets, |connectivity|)
    ensures |cells| == |offsets|
    ensures forall p | 0 <= p < |offsets| :: cells[p] == Cell(connectivity, offsets, p)
    ensures forall p | 0 <= p < |offsets| :: |cells[p]| == offsets[p] - Start(offsets, p)
  {
    cells := [];
    var prev := 0;
    for p := 0 to |offsets|
      invariant |cells| == p
      invariant prev == (if p == 0 then 0 else offsets[p - 1])
      invariant forall q | 0 <= q < p :: cells[q] == Cell(connectivity, offsets, q)
    {
      var cur := offsets[p];
      var vertices: seq<nat> := [];
      for v := prev to cur
        invariant vertices == Narrow(connectivity[prev..v])
      {
        vertices := vertices + [ToIndex(connectivity[v])];
      }
      cells := cells + [vertices];
      prev := cur;
    }
  }

  // ---------------------------------------------------------------------
  // The writers' side
  // ---------------------------------------------------------------------

  /** All cells' vertices one after the other. */
  function Flatten(cells: seq<seq<nat>>): seq<nat>
  {
    if cells == [] then [] else Flatten(cells[..|cells| - 1]) + cells[|cells| - 1]
  }

  /** The running totals of the cell sizes: the offset written for each cell. */
  function Offsets(cells: seq<seq<nat>>): (r: seq<int>)
    ensures |r| == |cells|
  {
    if cells == [] then [] else Offsets(cells[..|cells| - 1]) + [|Flatten(cells)|]
  }

  /** One more cell: its vertices follow, and its offset is the new total. */
  lemma FlattenStep(cells: seq<seq<nat>>, p: nat)
    requires p < |cells|
    ensures Flatten(cells[..p + 1]) == Flatten(cells[..p]) + cells[p]
    ensures Offsets(cells[..p + 1]) == Offsets(cells[..p]) + [|Flatten(cells[..p]) + cells[p]|]
  {
    assert cells[..p + 1][..p] == cells[..p];
  }

  /** Offset p is the length of the first p + 1 cells. */
  lemma {:induction false} OffsetAt(cells: seq<seq<nat>>, p: nat)
    requires p < |cells|
    ensures Offsets(cells)[p] == |Flatten(cells[..p + 1])|
    decreases |cells|
  {
    var n := |cells| - 1;
    if p < n {
      OffsetAt(cells[..n], p);
      assert cells[..n][..p + 1] == cells[..p + 1];
    } else {
      assert cells[..p + 1] == cells;
    }
  }

  /** The first k cells flatten to a prefix of all of them. */
  lemma {:induction false} FlattenPrefix(cells: seq<seq<nat>>, k: nat)
    requires k <= |cells|
    ensures |Flatten(cells[..k])| <= |Flatten(cells)|
    ensures Flatten(cells)[..|Flatten(cells[..k])|] == Flatten(cells[..k])
    decreases |cells|
  {
    if k < |cells| {
      var n := |cells| - 1;
      FlattenPrefix(cells[..n], k);
      assert cells[..n][..k] == cells[..k];
    } else {
      assert cells[..k] == cells;
    }
  }

  /** The running totals never decrease and end at the connectivity length. */
  lemma {:induction false} OffsetsWellFormed(cells: seq<seq<nat>>)
    ensures WellFormed(Offsets(cells), |Flatten(cells)|)
    decreases |cells|
  {
    if cells != [] {
      var n := |cells| - 1;
      OffsetsWellFormed(cells[..n]);
      assert Offsets(cells) == Offsets(cells[..n]) + [|Flatten(cells)|];
    }
  }

  /** Cell p sits in the flattened array between its start and its offset. */
  lemma SliceOfFlatten(cells: seq<seq<nat>>, p: nat)
    requires p < |cells|
    ensures WellFormed(Offsets(cells), |Flatten(cells)|)
    ensures Flatten(cells)[Start(Offsets(cells), p)..Offsets(cells)[p]] == cells[p]
  {
    OffsetsWellFormed(cells);
    OffsetAt(cells, p);
    FlattenPrefix(cells, p + 1);
    var f := Flatten(cells);
    var before := Flatten(cells[..p]);
    assert cells[..p + 1][..p] == cells[..p];
    assert Flatten(cells[..p + 1]) == before + cells[p];
    if p > 0 {
      OffsetAt(cells, p - 1);
      assert cells[..p - 1 + 1] == cells[..p];
    }
    assert Start(Offsets(cells), p) == |before|;
    assert f[..|before| + |cells[p]|] == before + cells[p];
    assert f[|before|..|before| + |cells[p]|] == (before + cells[p])[|before|..];
  }

  /**
   * Writing cells as offsets + connectivity and slicing them back gives
   * the cells, as long as every vertex id fits in index_t.
   */
  lemma CellsRoundTrip(cells: seq<seq<nat>>)
    requires forall p | 0 <= p < |cells| :: IndexValues(cells[p])
    ensures WellFormed(Offsets(cells), |Flatten(cells)|)
    ensures forall p | 0 <= p < |cells| :: Cell(Flatten(cells), Offsets(cells), p) == cells[p]
  {
    OffsetsWellFormed(cells);
    forall p | 0 <= p < |cells|
      ensures Cell(Flatten(cells), Offsets(cells), p) == cells[p]
    {
      SliceOfFlatten(cells, p);
      var c := cells[p];
      assert Narrow(c) == c;
    }
  }
}
