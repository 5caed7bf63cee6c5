/**
 * Reading a picture onto a regular grid surface
 * (src/geode/io/mesh/image_regular_grid_surface_input.cpp): the grid gets
 * one unit cell per pixel from the origin, and a cell attribute holds the
 * pixels, flipped vertically so that the picture's top row is the grid's
 * last row of cells. A picture of one or two channels fills
 * "Greyscale_data" from its first channel, one of three or four channels
 * fills "RGB_data"; any other picture gets no attribute.
 */
module ImageGridInput {
  import opened VtiRaster
  import opened RasterInput

  /** The cell attribute read_file fills in. */
  datatype CellAttribute =
    | Greyscale(greys: seq<Byte>)
    | Rgb(colors: seq<Color>)
    | NoAttribute

  /** The attribute's name, as find_or_create_attribute is given it. */
  function AttributeName(a: CellAttribute): string
  {
    match a
    case Greyscale(_) => "Greyscale_data"
    case Rgb(_) => "RGB_data"
    case NoAttribute => ""
  }

  /** RegularGrid2D as initialize_grid leaves it, with its cell attribute. */
  datatype Grid = Grid(origin: seq<int>, nbCells: seq<nat>, cellLength: nat, attribute: CellAttribute)

  /** cell_index({i, j}) of the grid: row-major, i fastest. */
  function GridCell(width: nat, i: nat, j: nat): nat
  {
    CellIndex(width, j, i)
  }

  /** The cell pixel (i, j) is set on: cell_index({i, height − 1 − j}). */
  function FlippedCell(width: nat, height: nat, i: nat, j: nat): nat
    requires j < height
  {
    GridCell(width, i, height - 1 - j)
  }

  /** The grey value GreyscaleColor() starts with. */
  const NO_GREY: Byte := 0

  /** The values cell c ends up with: those of the pixel in the flipped row above it. */
  function FlippedPixel(width: nat, height: nat, c: nat): (ij: (nat, nat))
    requires c < width * height
    ensures ij.0 < width && ij.1 < height
    ensures FlippedCell(width, height, ij.0, ij.1) == c
  {
    CellCovered(width, height, c);
    (c % width, height - 1 - c / width)
  }

  /**
   * The grid read_file builds: origin (0, 0), one cell per pixel, cells
   * of length 1, and the attribute chosen by the number of channels with
   * cell c holding the pixel of the flipped row.
   */
  function GridOf(p: Picture): (g: Grid)
    requires WellFormed(p)
  {
    var n := p.width * p.height;
    var attribute :=
      if p.spectrum <= 2 then
        Greyscale(seq(n, c requires 0 <= c < n => var ij := FlippedPixel(p.width, p.height, c); Sample(p, ij.0, ij.1, 0)))
      else if p.spectrum <= 4 then
        Rgb(seq(n, c requires 0 <= c < n => var ij := FlippedPixel(p.width, p.height, c); PixelColor(p, ij.0, ij.1)))
      else NoAttribute;
    Grid([0, 0], [p.width, p.height], 1, attribute)
  }

  /** The cells of the first jj pixel rows, flipped, hold their pixels' values. */
  ghost predicate FlippedRowsSet<T>(width: nat, height: nat, values: seq<T>, value: (nat, nat) --> T, jj: nat)
    requires jj <= height
    requires forall i, j | 0 <= i < width && 0 <= j < height :: value.requires(i, j)
  {
    forall j, i | 0 <= j < jj && 0 <= i < width ::
      FlippedCell(width, height, i, j) < |values| && values[FlippedCell(width, height, i, j)] == value(i, j)
  }

  /** The first ii cells of the flipped row of pixel row j hold their pixels' values. */
  ghost predicate FlippedRowStarted<T>(width: nat, height: nat, values: seq<T>, value: (nat, nat) --> T, j: nat, ii: nat)
    requires j < height && ii <= width
    requires forall i, j | 0 <= i < width && 0 <= j < height :: value.requires(i, j)
  {
    forall i | 0 <= i < ii ::
      FlippedCell(width, height, i, j) < |values| && values[FlippedCell(width, height, i, j)] == value(i, j)
  }

  /** Setting cell (i, height − 1 − j) keeps the rows already set and the cells before it. */
  lemma SetFlippedCell<T>(width: nat, height: nat, values: seq<T>, value: (nat, nat) --> T, j: nat, i: nat)
    requires j < height && i < width && |values| == width * height
    requires forall i, j | 0 <= i < width && 0 <= j < height :: value.requires(i, j)
    requires FlippedRowsSet(width, height, values, value, j) && FlippedRowStarted(width, height, values, value, j, i)
    ensures FlippedCell(width, height, i, j) < |values|
    ensures var next := values[FlippedCell(width, height, i, j) := value(i, j)];
      FlippedRowsSet(width, height, next, value, j) && FlippedRowStarted(width, height, next, value, j, i + 1)
  {
    var cell := FlippedCell(width, height, i, j);
    CellInRange(width, height, height - 1 - j, i);
    forall j2, i2 | 0 <= j2 < j && 0 <= i2 < width
      ensures FlippedCell(width, height, i2, j2) != cell
    {
      if FlippedCell(width, height, i2, j2) == cell {
        CellIndexInjective(width, height - 1 - j2, i2, height - 1 - j, i);
      }
    }
  }

  /** Once every pixel row is set, cell c holds the value of the pixel FlippedPixel names. */
  lemma AllFlippedRowsSet<T>(width: nat, height: nat, values: seq<T>, value: (nat, nat) --> T, c: nat)
    requires |values| == width * height && c < width * height
    requires forall i, j | 0 <= i < width && 0 <= j < height :: value.requires(i, j)
    requires FlippedRowsSet(width, height, values, value, height)
    ensures var ij := FlippedPixel(width, height, c); values[c] == value(ij.0, ij.1)
  {
    var ij := FlippedPixel(width, height, c);
    assert FlippedCell(width, height, ij.0, ij.1) == c;
  }

  /**
   * One pass of read_file's outer loop: the columns of pixel row j, each
   * value set on cell (i, height − 1 − j).
   */
  method SetFlippedRow<T>(width: nat, height: nat, values: seq<T>, value: (nat, nat) --> T, j: nat)
    returns (next: seq<T>)
    requires j < height && |values| == width * height
    requires forall i, j | 0 <= i < width && 0 <= j < height :: value.requires(i, j)
    requires FlippedRowsSet(width, height, values, value, j)
    ensures |next| == width * height && FlippedRowsSet(width, height, next, value, j + 1)
  {
    var cellJ := height - 1 - j;
    next := values;
    for i := 0 to width
      invariant |next| == width * height
      invariant FlippedRowsSet(width, height, next, value, j) && FlippedRowStarted(width, height, next, value, j, i)
    {
      SetFlippedCell(width, height, next, value, j, i);
      next := next[GridCell(width, i, cellJ) := value(i, j)];
    }
  }

  /** read_file's two loops: every pixel's value set on its flipped cell. */
  method SetFlipped<T>(width: nat, height: nat, initial: T, value: (nat, nat) --> T) returns (values: seq<T>)
    requires forall i, j | 0 <= i < width && 0 <= j < height :: value.requires(i, j)
    ensures |values| == width * height
    ensures forall c | 0 <= c < width * height ::
      var ij := FlippedPixel(width, height, c); values[c] == value(ij.0, ij.1)
  {
    values := seq(width * height, _ => initial);
    for j := 0 to height
      invariant |values| == width * height && FlippedRowsSet(width, height, values, value, j)
    {
      values := SetFlippedRow(width, height, values, value, j);
    }
    forall c | 0 <= c < width * height
      ensures var ij := FlippedPixel(width, height, c); values[c] == value(ij.0, ij.1)
    {
      AllFlippedRowsSet(width, height, values, value, c);
    }
  }

  /**
   * read_file: a grid of one unit cell per pixel from the origin, and the
   * attribute the number of channels selects, filled row by row.
   */
  method ReadGrid(p: Picture) returns (g: Grid)
    requires WellFormed(p)
    ensures g == GridOf(p)
  {
    var attribute := NoAttribute;
    if p.spectrum <= 2 {
      var greys := SetFlipped(p.width, p.height, NO_GREY,
        (i: nat, j: nat) requires WellFormed(p) && i < p.width && j < p.height => Sample(p, i, j, 0));
      assert greys == GridOf(p).attribute.greys;
      attribute := Greyscale(greys);
    } else if p.spectrum <= 4 {
      var colors := SetFlipped(p.width, p.height, BLACK,
        (i: nat, j: nat) requires WellFormed(p) && i < p.width && j < p.height && p.spectrum <= 4 => PixelColor(p, i, j));
      assert colors == GridOf(p).attribute.colors;
      attribute := Rgb(colors);
    }
    g := Grid([0, 0], [p.width, p.height], 1, attribute);
  }

  // ---------------------------------------------------------------------
  // Where each pixel goes
  // ---------------------------------------------------------------------

  /** Pixel (i, j) is the value of cell (i, height − 1 − j), the top row of the picture being the last row of cells. */
  lemma PixelOnFlippedCell(p: Picture, i: nat, j: nat)
    requires WellFormed(p) && i < p.width && j < p.height
    ensures FlippedCell(p.width, p.height, i, j) < p.width * p.height
    ensures p.spectrum <= 2 ==> GridOf(p).attribute.greys[FlippedCell(p.width, p.height, i, j)] == Sample(p, i, j, 0)
    ensures 2 < p.spectrum <= 4 ==> GridOf(p).attribute.colors[FlippedCell(p.width, p.height, i, j)] == PixelColor(p, i, j)
    ensures p.spectrum > 4 ==> GridOf(p).attribute == NoAttribute
  {
    var c := FlippedCell(p.width, p.height, i, j);
    CellInRange(p.width, p.height, p.height - 1 - j, i);
    var ij := FlippedPixel(p.width, p.height, c);
    CellIndexInjective(p.width, p.height - 1 - ij.1, ij.0, p.height - 1 - j, i);
    assert ij == (i, j);
  }

  /**
   * The grid's cells hold what the raster reader that reverses the y axis
   * puts in the same cells: the same colours, or their grey level.
   */
  lemma GridMatchesReversedRaster(p: Picture, c: nat)
    requires WellFormed(p) && c < p.width * p.height
    ensures p.spectrum <= 2 ==> GridOf(p).attribute.greys[c] == RasterOf(p, true).colors[c].red
    ensures 2 < p.spectrum <= 4 ==> GridOf(p).attribute.colors[c] == RasterOf(p, true).colors[c]
  {
    if p.spectrum <= 4 {
      CellCovered(p.width, p.height, c);
      var ij := FlippedPixel(p.width, p.height, c);
      assert RasterOf(p, true).colors[c] == PixelColor(p, ij.0, ij.1);
    }
  }
}
