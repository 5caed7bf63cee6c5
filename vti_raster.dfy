/**
 * The raster image writers (src/geode/io/image/vti_raster_image_output.cpp
 * and src/geode/io/image/vti_raster_output.cpp): one "Color" array of
 * unsigned 8-bit red, green and blue values, one triple per raster cell in
 * cell order, with the smallest and largest component as its range.
 */
module VtiRaster {
  import opened Wrappers
  import opened Text
  import VtkCells
  import Vti
  import VtuOutput

  /** local_index_t: an unsigned 8-bit value. */
  type Byte = x: nat | x < 256

  datatype Color = Color(red: Byte, green: Byte, blue: Byte)

  /** The three components of each colour, cell after cell. */
  function Components(colors: seq<Color>): (r: seq<int>)
    ensures |r| == 3 * |colors|
    ensures forall c | 0 <= c < |colors| ::
      r[3 * c] == colors[c].red && r[3 * c + 1] == colors[c].green && r[3 * c + 2] == colors[c].blue
  {
    if colors == [] then []
    else
      var last := colors[|colors| - 1];
      Components(colors[..|colors| - 1]) + [last.red, last.green, last.blue]
  }

  function Lowest(color: Color): Byte
  {
    if color.red <= color.green && color.red <= color.blue then color.red
    else if color.green <= color.blue then color.green
    else color.blue
  }

  function Highest(color: Color): Byte
  {
    if color.red >= color.green && color.red >= color.blue then color.red
    else if color.green >= color.blue then color.green
    else color.blue
  }

  /** A colour's smallest and largest components bound all three and are among them. */
  lemma LowestHighest(color: Color)
    ensures Lowest(color) <= color.red && Lowest(color) <= color.green && Lowest(color) <= color.blue
    ensures Highest(color) >= color.red && Highest(color) >= color.green && Highest(color) >= color.blue
    ensures Lowest(color) in {color.red, color.green, color.blue}
    ensures Highest(color) in {color.red, color.green, color.blue}
  {
  }

  /** std::min and std::max of the running bounds with a colour's components. */
  function NarrowMin(min: Byte, color: Color): Byte { if Lowest(color) < min then Lowest(color) else min }
  function WidenMax(max: Byte, color: Color): Byte { if Highest(color) > max then Highest(color) else max }

  /** min and max bound the components of the first c colours, and are among them once there is one. */
  ghost predicate RangeSoFar(colors: seq<Color>, c: nat, min: Byte, max: Byte)
    requires c <= |colors|
  {
    && (forall j | 0 <= j < c :: min <= Lowest(colors[j]) && Highest(colors[j]) <= max)
    && (c == 0 ==> min == 255 && max == 0)
    && (c > 0 ==> exists j | 0 <= j < c :: Lowest(colors[j]) == min)
    && (c > 0 ==> exists j | 0 <= j < c :: Highest(colors[j]) == max)
  }

  lemma RangeStep(colors: seq<Color>, c: nat, min: Byte, max: Byte)
    requires c < |colors| && RangeSoFar(colors, c, min, max)
    ensures RangeSoFar(colors, c + 1, NarrowMin(min, colors[c]), WidenMax(max, colors[c]))
  {
    if c > 0 {
      var j :| 0 <= j < c && Lowest(colors[j]) == min;
      var k :| 0 <= k < c && Highest(colors[k]) == max;
      if Lowest(colors[c]) >= min { assert Lowest(colors[j]) == NarrowMin(min, colors[c]); }
      if Highest(colors[c]) <= max { assert Highest(colors[k]) == WidenMax(max, colors[c]); }
    }
  }

  lemma ComponentsStep(colors: seq<Color>, c: nat)
    requires c < |colors|
    ensures Components(colors[..c + 1]) == Components(colors[..c]) + [colors[c].red, colors[c].green, colors[c].blue]
  {
    assert colors[..c + 1][..c] == colors[..c];
  }

  /**
   * The values loop of write_point_data / write_cell_data: "r g b " per
   * cell, with min starting at 255 and max at 0 and each narrowed by the
   * cell's components.
   */
  method WriteColors(colors: seq<Color>) returns (values: string, min: Byte, max: Byte)
    ensures values == JoinInts(Components(colors))
    ensures forall c | 0 <= c < |colors| :: min <= Lowest(colors[c]) && Highest(colors[c]) <= max
    ensures colors == [] ==> min == 255 && max == 0
    ensures colors != [] ==> exists c | 0 <= c < |colors| :: Lowest(colors[c]) == min
    ensures colors != [] ==> exists c | 0 <= c < |colors| :: Highest(colors[c]) == max
  {
    values, min, max := "", 255, 0;
    for c := 0 to |colors|
      invariant values == JoinInts(Components(colors[..c]))
      invariant RangeSoFar(colors, c, min, max)
    {
      var color := colors[c];
      ComponentsStep(colors, c);
      values := VtuOutput.AppendInts(values, Components(colors[..c]), [color.red, color.green, color.blue]);
      RangeStep(colors, c, min, max);
      min := NarrowMin(min, color);
      max := WidenMax(max, color);
    }
    assert colors[..|colors|] == colors;
  }

  /** Reading the values back gives three numbers per cell: its red, green and blue. */
  lemma ColorsReadBack(colors: seq<Color>)
    ensures ParseInts(Split(JoinInts(Components(colors)))).Some?
    ensures var xs := ParseInts(Split(JoinInts(Components(colors)))).value;
      |xs| == 3 * |colors| &&
      forall c | 0 <= c < |colors| :: xs[3 * c] == colors[c].red && xs[3 * c + 1] == colors[c].green && xs[3 * c + 2] == colors[c].blue
  {
    AsciiRoundTrip(Components(colors));
  }

  /** The UInt8 "Color" DataArray, and the data section it sits in. */
  datatype ColorData = ColorData(
    section: string,
    scalars: Option<string>,
    typeName: string,
    name: string,
    format: string,
    components: nat,
    rangeMin: Byte,
    rangeMax: Byte,
    values: string)

  /** The fields every colour array has, whichever section holds it. */
  predicate ColorArrayOf(data: ColorData, colors: seq<Color>)
  {
    && data.typeName == "UInt8" && data.name == "Color" && data.format == "ascii" && data.components == 3
    && data.values == JoinInts(Components(colors))
    && (forall c | 0 <= c < |colors| :: data.rangeMin <= Lowest(colors[c]) && Highest(colors[c]) <= data.rangeMax)
    && (colors == [] ==> data.rangeMin == 255 && data.rangeMax == 0)
    && (colors != [] ==> exists c | 0 <= c < |colors| :: Lowest(colors[c]) == data.rangeMin)
    && (colors != [] ==> exists c | 0 <= c < |colors| :: Highest(colors[c]) == data.rangeMax)
  }

  function Constant(dim: nat, word: string): seq<string>
  {
    seq(dim, _ => word)
  }

  /**
   * VTIOutputImpl::write_piece of src/geode/io/image/vti_raster_image_output.cpp:
   * the image header for an extent of nb_cells_in_direction points per
   * direction, default origin and unit spacing, then the colours as point
   * data with Scalars="Color".
   */
  method WriteRasterImage(nbCells: seq<nat>, colors: seq<Color>)
    returns (header: seq<Vti.Attribute>, pieceExtent: string, data: ColorData)
    requires Vti.Dimension(|nbCells|)
    ensures header == Vti.GeometryAttributes(Constant(|nbCells|, "0"), nbCells, Constant(|nbCells|, "1"))
    ensures pieceExtent == header[0].1
    ensures data.section == "PointData" && data.scalars == Some("Color")
    ensures ColorArrayOf(data, colors)
  {
    var dim := |nbCells|;
    var extent: seq<nat> := [];
    for d := 0 to dim
      invariant extent == nbCells[..d]
    {
      extent := extent + [nbCells[d]];
    }
    assert extent == nbCells;
    header, pieceExtent := Vti.WriteGeometryHeader(Constant(dim, "0"), extent, Constant(dim, "1"));
    var values, min, max := WriteColors(colors);
    data := ColorData("PointData", Some("Color"), "UInt8", "Color", "ascii", 3, min, max, values);
  }

  /** write_cell_data of src/geode/io/image/vti_raster_output.cpp: the colours as cell data. */
  method WriteRasterCellData(colors: seq<Color>) returns (data: ColorData)
    ensures data.section == "CellData" && data.scalars == None
    ensures ColorArrayOf(data, colors)
  {
    var values, min, max := WriteColors(colors);
    data := ColorData("CellData", None, "UInt8", "Color", "ascii", 3, min, max, values);
  }

  /** The number of points an extent describes: cells + 1 in each direction. */
  function Points(cells: seq<nat>): nat
  {
    if cells == [] then 1 else (cells[0] + 1) * Points(cells[1..])
  }

  function Product(xs: seq<nat>): nat
  {
    if xs == [] then 1 else xs[0] * Product(xs[1..])
  }

  /**
   * The raster image header reads back with nb_cells − 1 cells, that is
   * nb_cells points, in each direction: the point data holds exactly one
   * colour per point.
   */
  lemma RasterImageOnePointPerColor(nbCells: seq<nat>, colors: seq<Color>)
    requires Vti.Dimension(|nbCells|) && VtkCells.IndexValues(nbCells)
    requires forall d | 0 <= d < |nbCells| :: nbCells[d] >= 1
    requires |colors| == Product(nbCells)
    ensures Vti.ReadFrom(|nbCells|, Vti.GeometryAttributes(Constant(|nbCells|, "0"), nbCells, Constant(|nbCells|, "1"))).Ok?
    ensures var g := Vti.ReadFrom(|nbCells|, Vti.GeometryAttributes(Constant(|nbCells|, "0"), nbCells, Constant(|nbCells|, "1"))).value;
      (forall d | 0 <= d < |nbCells| :: g.cellsNumber[d] + 1 == nbCells[d]) && Points(g.cellsNumber) == |colors|
  {
    Vti.GeometryHeaderReadsBack(Constant(|nbCells|, "0"), nbCells, Constant(|nbCells|, "1"));
    EndsArePointCounts(nbCells);
  }

  /** nb_cells − 1 as the last point index of each direction: one more point than that is nb_cells. */
  lemma EndsArePointCounts(nbCells: seq<nat>)
    requires VtkCells.IndexValues(nbCells)
    requires forall d | 0 <= d < |nbCells| :: nbCells[d] >= 1
    ensures forall d | 0 <= d < |nbCells| :: Vti.ImageEnds(nbCells)[d] + 1 == nbCells[d]
    ensures Points(Vti.ImageEnds(nbCells)) == Product(nbCells)
  {
    PointsOfEnds(Vti.ImageEnds(nbCells), nbCells);
  }

  lemma {:induction false} PointsOfEnds(ends: seq<nat>, counts: seq<nat>)
    requires |ends| == |counts| && forall d | 0 <= d < |ends| :: ends[d] + 1 == counts[d]
    ensures Points(ends) == Product(counts)
    decreases |ends|
  {
    if ends != [] {
      PointsOfEnds(ends[1..], counts[1..]);
    }
  }
}
