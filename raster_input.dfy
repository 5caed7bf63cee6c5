/**
 * Reading a picture into a raster image (src/geode/io/image/raster_image_input.cpp):
 * the picture's width × height pixels become the raster's cells, row after
 * row, each row left to right. A picture of one or two channels gives grey
 * colours from its first channel, one of three or four channels gives the
 * colour of its first three; any other picture leaves the raster at its
 * default colour. read_reversed_y_axis_file visits the rows bottom up, so
 * pixel row j lands in cell row height − 1 − j.
 */
module RasterInput {
  import opened VtiRaster

  /**
   * A decoded picture as CImg holds it (local_index_t samples): pixel
   * (i, j) has `spectrum` channels and samples[j][i][c] is its channel c.
   */
  datatype Picture = Picture(width: nat, height: nat, spectrum: nat, samples: seq<seq<seq<Byte>>>)

  /**
   * The layout CImg guarantees: one sequence per pixel row, one sample per
   * channel, and at least one channel as soon as there is a pixel.
   */
  predicate WellFormed(p: Picture)
  {
    && |p.samples| == p.height
    && (forall j | 0 <= j < p.height :: |p.samples[j]| == p.width)
    && (forall j, i | 0 <= j < p.height && 0 <= i < p.width :: |p.samples[j][i]| == p.spectrum)
    && (p.width > 0 && p.height > 0 ==> p.spectrum > 0)
  }

  /** image(i, j, 0, c). */
  function Sample(p: Picture, i: nat, j: nat, c: nat): Byte
    requires WellFormed(p) && i < p.width && j < p.height && c < p.spectrum
  {
    p.samples[j][i][c]
  }

  /** The default RGBColor a raster starts with. */
  const BLACK := Color(0, 0, 0)

  /**
   * The colour pixel (i, j) is given: (v, v, v) from its first channel for
   * one or two channels, its first three channels for three or four.
   */
  function PixelColor(p: Picture, i: nat, j: nat): (r: Color)
    requires WellFormed(p) && i < p.width && j < p.height && p.spectrum <= 4
    ensures p.spectrum <= 2 ==> r.red == Sample(p, i, j, 0) && r.green == r.red && r.blue == r.red
    ensures p.spectrum > 2 ==> r == Color(Sample(p, i, j, 0), Sample(p, i, j, 1), Sample(p, i, j, 2))
  {
    if p.spectrum <= 2 then
      var v := Sample(p, i, j, 0);
      Color(v, v, v)
    else
      Color(Sample(p, i, j, 0), Sample(p, i, j, 1), Sample(p, i, j, 2))
  }

  /** RasterImage2D: width × height cells, each with its colour. */
  datatype Raster = Raster(width: nat, height: nat, colors: seq<Color>)

  // ---------------------------------------------------------------------
  // Cell numbering
  // ---------------------------------------------------------------------

  /** The cell the counter has reached at column i of the k-th row visited. */
  function CellIndex(width: nat, k: nat, i: nat): nat
  {
    k * width + i
  }

  /** The picture row the k-th pass of the outer loop reads: Range counts up, ReverseRange down. */
  function RowOf(height: nat, k: nat, reversed: bool): (j: nat)
    requires k < height
    ensures j < height
  {
    if reversed then height - 1 - k else k
  }

  lemma RowsScale(width: nat, a: nat, b: nat)
    requires a <= b
    ensures a * width <= b * width
  {
  }

  /** A cell of row k comes before the first cell of row k + 1. */
  lemma CellBeforeNextRow(width: nat, k: nat, i: nat)
    requires i < width
    ensures CellIndex(width, k, i) < (k + 1) * width
  {
  }

  lemma CellInRange(width: nat, height: nat, k: nat, i: nat)
    requires k < height && i < width
    ensures CellIndex(width, k, i) < width * height
  {
    CellBeforeNextRow(width, k, i);
    RowsScale(width, k + 1, height);
  }

  /** Every cell of an earlier row comes before every cell of a later one. */
  lemma RowsOrdered(width: nat, k1: nat, i1: nat, k2: nat, i2: nat)
    requires i1 < width
    ensures k1 < k2 ==> CellIndex(width, k1, i1) < CellIndex(width, k2, i2)
  {
    if k1 < k2 {
      CellBeforeNextRow(width, k1, i1);
      RowsScale(width, k1 + 1, k2);
    }
  }

  /** Different (row, column) pairs give different cells. */
  lemma CellIndexInjective(width: nat, k1: nat, i1: nat, k2: nat, i2: nat)
    requires i1 < width && i2 < width
    requires CellIndex(width, k1, i1) == CellIndex(width, k2, i2)
    ensures k1 == k2 && i1 == i2
  {
    RowsOrdered(width, k1, i1, k2, i2);
    RowsOrdered(width, k2, i2, k1, i1);
  }

  /** Every cell below width × height is reached at exactly one (row, column). */
  lemma CellCovered(width: nat, height: nat, c: nat)
    requires c < width * height
    ensures width > 0 && c / width < height && c % width < width
    ensures CellIndex(width, c / width, c % width) == c
  {
    assert width > 0;
    if c / width >= height {
      RowsScale(width, height, c / width);
    }
  }

  // ---------------------------------------------------------------------
  // The reader
  // ---------------------------------------------------------------------

  /** The colour cell c ends up with: that of the pixel the counter was at when it reached c. */
  function CellColor(p: Picture, reversed: bool, c: nat): Color
    requires WellFormed(p) && p.spectrum <= 4 && c < p.width * p.height
  {
    CellCovered(p.width, p.height, c);
    PixelColor(p, c % p.width, RowOf(p.height, c / p.width, reversed))
  }

  /**
   * The raster read_file builds, cell by cell: for a picture of at most
   * four channels, cell c holds the colour of the pixel the counter maps to
   * it; for more channels every cell keeps the default colour.
   */
  function RasterOf(p: Picture, reversed: bool): (r: Raster)
    requires WellFormed(p)
    ensures r.width == p.width && r.height == p.height && |r.colors| == p.width * p.height
  {
    if p.spectrum <= 4 then
      Raster(p.width, p.height, seq(p.width * p.height, c requires 0 <= c < p.width * p.height => CellColor(p, reversed, c)))
    else
      Raster(p.width, p.height, seq(p.width * p.height, _ => BLACK))
  }

  /** Every cell of the first k rows visited holds the colour of its pixel. */
  ghost predicate RowsDone(p: Picture, reversed: bool, colors: seq<Color>, k: nat)
    requires WellFormed(p) && p.spectrum <= 4 && k <= p.height
  {
    forall k2, i2 | 0 <= k2 < k && 0 <= i2 < p.width ::
      CellIndex(p.width, k2, i2) < |colors| && colors[CellIndex(p.width, k2, i2)] == PixelColor(p, i2, RowOf(p.height, k2, reversed))
  }

  /** The first i cells of the k-th row visited hold the colours of their pixels. */
  ghost predicate RowStarted(p: Picture, reversed: bool, colors: seq<Color>, k: nat, i: nat)
    requires WellFormed(p) && p.spectrum <= 4 && k < p.height && i <= p.width
  {
    forall i2 | 0 <= i2 < i ::
      CellIndex(p.width, k, i2) < |colors| && colors[CellIndex(p.width, k, i2)] == PixelColor(p, i2, RowOf(p.height, k, reversed))
  }

  lemma NextRowStart(width: nat, k: nat)
    ensures CellIndex(width, k, width) == CellIndex(width, k + 1, 0)
  {
  }

  /** Setting the cell after a row's first i cells keeps the rows before and the cells before. */
  lemma SetNextCell(p: Picture, reversed: bool, colors: seq<Color>, k: nat, i: nat)
    requires WellFormed(p) && p.spectrum <= 4 && k < p.height && i < p.width && |colors| == p.width * p.height
    requires RowsDone(p, reversed, colors, k) && RowStarted(p, reversed, colors, k, i)
    ensures CellIndex(p.width, k, i) < |colors|
    ensures var next := colors[CellIndex(p.width, k, i) := PixelColor(p, i, RowOf(p.height, k, reversed))];
      RowsDone(p, reversed, next, k) && RowStarted(p, reversed, next, k, i + 1)
  {
    var cell := CellIndex(p.width, k, i);
    CellInRange(p.width, p.height, k, i);
    forall k2, i2 | 0 <= k2 < k && 0 <= i2 < p.width
      ensures CellIndex(p.width, k2, i2) != cell
    {
      if CellIndex(p.width, k2, i2) == cell { CellIndexInjective(p.width, k2, i2, k, i); }
    }
  }

  /** A whole row done is one more row done. */
  lemma RowFinished(p: Picture, reversed: bool, colors: seq<Color>, k: nat)
    requires WellFormed(p) && p.spectrum <= 4 && k < p.height
    requires RowsDone(p, reversed, colors, k) && RowStarted(p, reversed, colors, k, p.width)
    ensures RowsDone(p, reversed, colors, k + 1)
  {
  }

  /** Once every row is done, the cells are those of RasterOf. */
  lemma AllRowsDone(p: Picture, reversed: bool, colors: seq<Color>)
    requires WellFormed(p) && p.spectrum <= 4 && |colors| == p.width * p.height
    requires RowsDone(p, reversed, colors, p.height)
    ensures colors == RasterOf(p, reversed).colors
  {
    forall c | 0 <= c < p.width * p.height
      ensures colors[c] == CellColor(p, reversed, c)
    {
      CellCovered(p.width, p.height, c);
    }
  }

  /**
   * The inner loop of read_file: the columns of the k-th row visited, the
   * counter naming the cell each colour is set on.
   */
  method ReadRow(p: Picture, reversed: bool, colors: seq<Color>, k: nat, cell: nat)
    returns (next: seq<Color>, after: nat)
    requires WellFormed(p) && p.spectrum <= 4 && k < p.height && |colors| == p.width * p.height
    requires cell == CellIndex(p.width, k, 0) && RowsDone(p, reversed, colors, k)
    ensures |next| == p.width * p.height && after == CellIndex(p.width, k + 1, 0)
    ensures RowsDone(p, reversed, next, k + 1)
  {
    var j := RowOf(p.height, k, reversed);
    next, after := colors, cell;
    for i := 0 to p.width
      invariant after == CellIndex(p.width, k, i) && |next| == p.width * p.height
      invariant RowsDone(p, reversed, next, k) && RowStarted(p, reversed, next, k, i)
    {
      SetNextCell(p, reversed, next, k, i);
      next := next[after := PixelColor(p, i, j)];
      after := after + 1;
    }
    NextRowStart(p.width, k);
    RowFinished(p, reversed, next, k);
  }

  /**
   * read_file<SpecificRange>: the outer loop walks the rows (upwards for
   * Range, downwards for ReverseRange), the inner loop the columns, and a
   * running counter names the cell each pixel's colour is set on.
   */
  method ReadFile(p: Picture, reversed: bool) returns (raster: Raster)
    requires WellFormed(p)
    ensures raster == RasterOf(p, reversed)
  {
    var colors := seq(p.width * p.height, _ => BLACK);
    if p.spectrum <= 4 {
      var cell := 0;
      for k := 0 to p.height
        invariant cell == CellIndex(p.width, k, 0) && |colors| == p.width * p.height
        invariant RowsDone(p, reversed, colors, k)
      {
        colors, cell := ReadRow(p, reversed, colors, k, cell);
      }
      AllRowsDone(p, reversed, colors);
    }
    raster := Raster(p.width, p.height, colors);
  }

  // ---------------------------------------------------------------------
  // Where each pixel goes
  // ---------------------------------------------------------------------

  /** The cell at column i of the k-th row visited holds the pixel of that column in row RowOf(k). */
  lemma CellColorAt(p: Picture, reversed: bool, k: nat, i: nat)
    requires WellFormed(p) && p.spectrum <= 4 && k < p.height && i < p.width
    ensures CellIndex(p.width, k, i) < p.width * p.height
    ensures CellColor(p, reversed, CellIndex(p.width, k, i)) == PixelColor(p, i, RowOf(p.height, k, reversed))
  {
    CellInRange(p.width, p.height, k, i);
    var c := CellIndex(p.width, k, i);
    CellCovered(p.width, p.height, c);
    CellIndexInjective(p.width, c / p.width, c % p.width, k, i);
  }

  /** read_file: pixel (i, j) is the colour of cell j·width + i. */
  lemma PixelInCell(p: Picture, i: nat, j: nat)
    requires WellFormed(p) && p.spectrum <= 4 && i < p.width && j < p.height
    ensures CellIndex(p.width, j, i) < |RasterOf(p, false).colors|
    ensures RasterOf(p, false).colors[CellIndex(p.width, j, i)] == PixelColor(p, i, j)
  {
    CellInRange(p.width, p.height, j, i);
    CellColorAt(p, false, j, i);
  }

  /** read_reversed_y_axis_file: pixel (i, j) is the colour of cell (height − 1 − j)·width + i, the vertical flip. */
  lemma PixelInFlippedCell(p: Picture, i: nat, j: nat)
    requires WellFormed(p) && p.spectrum <= 4 && i < p.width && j < p.height
    ensures CellIndex(p.width, p.height - 1 - j, i) < |RasterOf(p, true).colors|
    ensures RasterOf(p, true).colors[CellIndex(p.width, p.height - 1 - j, i)] == PixelColor(p, i, j)
  {
    CellInRange(p.width, p.height, p.height - 1 - j, i);
    CellColorAt(p, true, p.height - 1 - j, i);
  }

  /** The two readers give the same rows of cells, in opposite order. */
  lemma ReversedRowsSwapped(p: Picture, k: nat, i: nat)
    requires WellFormed(p) && k < p.height && i < p.width
    ensures CellIndex(p.width, k, i) < p.width * p.height
    ensures CellIndex(p.width, p.height - 1 - k, i) < p.width * p.height
    ensures RasterOf(p, true).colors[CellIndex(p.width, k, i)]
            == RasterOf(p, false).colors[CellIndex(p.width, p.height - 1 - k, i)]
  {
    CellInRange(p.width, p.height, k, i);
    CellInRange(p.width, p.height, p.height - 1 - k, i);
    if p.spectrum <= 4 {
      PixelInFlippedCell(p, i, p.height - 1 - k);
      PixelInCell(p, i, p.height - 1 - k);
    }
  }

  /** A picture of more than four channels leaves every cell at the default colour. */
  lemma WideSpectrumDefault(p: Picture, c: nat, reversed: bool)
    requires WellFormed(p) && p.spectrum > 4 && c < p.width * p.height
    ensures RasterOf(p, reversed).colors[c] == BLACK
  {
  }
}
