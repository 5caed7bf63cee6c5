/**
 * VTK ImageData (.vti) headers.
 *
 * The readers (include/geode/io/mesh/detail/vti_grid_input.hpp, its older
 * copy include/geode/io/mesh/detail/vti_grid_input.h and
 * src/geode/io/mesh/vti_regular_grid_input.cpp) scan the attributes of the
 * ImageData node into a GridAttributes record: cell counts from WholeExtent,
 * origin, spacing and direction vectors. The writers build the same
 * attributes as text. Real numbers (coordinates, spacings, direction
 * components) are kept as the token text they are read from or written as.
 */
module Vti {
  import opened Wrappers
  import opened Text
  import Streams
  import VtkCells

  /** An XML attribute of the ImageData node: its name and its value text. */
  type Attribute = (string, string)

  datatype GridAttributes = GridAttributes(
    origin: seq<string>,
    cellsNumber: seq<nat>,
    cellsLength: seq<string>,
    directions: seq<seq<string>>)

  predicate Dimension(dim: nat) { dim == 2 || dim == 3 }

  /** Every array holds one entry per dimension, and every direction one component per dimension. */
  predicate Shaped(dim: nat, g: GridAttributes)
  {
    |g.origin| == dim && |g.cellsNumber| == dim && |g.cellsLength| == dim && |g.directions| == dim
    && forall d | 0 <= d < dim :: |g.directions[d]| == dim
  }

  /** The unit vectors along the axes. */
  function Identity(dim: nat): seq<seq<string>>
  {
    seq(dim, d => seq(dim, i => if d == i then "1" else "0"))
  }

  /** The record before any attribute is seen: origin 0, no cells, unit lengths, axis directions. */
  function Defaults(dim: nat): (g: GridAttributes)
    ensures Shaped(dim, g)
  {
    GridAttributes(seq(dim, _ => "0"), seq(dim, _ => 0), seq(dim, _ => "1"), Identity(dim))
  }

  // ---------------------------------------------------------------------
  // Reading
  // ---------------------------------------------------------------------

  /** The first 2·dim tokens exist and each converts to an index_t (string_to_index). */
  predicate IndexPairs(dim: nat, tokens: seq<string>)
  {
    2 * dim <= |tokens| && forall k | 0 <= k < 2 * dim :: Streams.ParseIndex(tokens[k]).Some?
  }

  function IndexAt(tokens: seq<string>, k: nat): nat
    requires k < |tokens| && Streams.ParseIndex(tokens[k]).Some?
  {
    Streams.ParseIndex(tokens[k]).value
  }

  /** WholeExtent: cells in direction d are end − start of pair d, as an index_t. */
  function ExtentOf(dim: nat, tokens: seq<string>): Result<seq<nat>>
  {
    if IndexPairs(dim, tokens) then
      Ok(seq(dim, d requires 0 <= d < dim => VtkCells.ToIndex(IndexAt(tokens, 2 * d + 1) - IndexAt(tokens, 2 * d))))
    else Err("WholeExtent: missing or invalid index")
  }

  /** Origin and Spacing: token d is the value in direction d. */
  function ValuesOf(dim: nat, tokens: seq<string>): Result<seq<string>>
  {
    if dim <= |tokens| then Ok(tokens[..dim]) else Err("too few values")
  }

  /** Direction: component i of direction d is token 3·d + i, whatever the dimension. */
  function DirectionsOf(dim: nat, tokens: seq<string>): Result<seq<seq<string>>>
    requires dim > 0
  {
    if 3 * (dim - 1) + dim <= |tokens| then
      Ok(seq(dim, d requires 0 <= d < dim => tokens[3 * d..3 * d + dim]))
    else Err("Direction: too few values")
  }

  /** One attribute of the node applied to the record; unknown names leave it as it is. */
  function Apply(dim: nat, g: GridAttributes, attribute: Attribute): (r: Result<GridAttributes>)
    requires Dimension(dim) && Shaped(dim, g)
    ensures r.Ok? ==> Shaped(dim, r.value)
  {
    var tokens := Split(attribute.1);
    if attribute.0 == "WholeExtent" then
      match ExtentOf(dim, tokens)
      case Ok(c) => Ok(g.(cellsNumber := c))
      case Err(e) => Err(e)
    else if attribute.0 == "Origin" then
      match ValuesOf(dim, tokens)
      case Ok(v) => Ok(g.(origin := v))
      case Err(e) => Err(e)
    else if attribute.0 == "Spacing" then
      match ValuesOf(dim, tokens)
      case Ok(v) => Ok(g.(cellsLength := v))
      case Err(e) => Err(e)
    else if attribute.0 == "Direction" then
      match DirectionsOf(dim, tokens)
      case Ok(v) => Ok(g.(directions := v))
      case Err(e) => Err(e)
    else Ok(g)
  }

  /** read_grid_attributes: the attributes applied in document order to the defaults. */
  function ReadFrom(dim: nat, attributes: seq<Attribute>): (r: Result<GridAttributes>)
    requires Dimension(dim)
    ensures r.Ok? ==> Shaped(dim, r.value)
  {
    if attributes == [] then Ok(Defaults(dim))
    else
      match ReadFrom(dim, attributes[..|attributes| - 1])
      case Ok(g) => Apply(dim, g, attributes[|attributes| - 1])
      case Err(e) => Err(e)
  }

  predicate Known(attribute: Attribute)
  {
    attribute.0 in {"WholeExtent", "Origin", "Spacing", "Direction"}
  }

  function KnownOnly(attributes: seq<Attribute>): (r: seq<Attribute>)
    ensures forall k | 0 <= k < |r| :: Known(r[k])
  {
    if attributes == [] then []
    else
      var last := attributes[|attributes| - 1];
      KnownOnly(attributes[..|attributes| - 1]) + (if Known(last) then [last] else [])
  }

  /** Attributes with any other name are ignored. */
  lemma {:induction false} UnknownIgnored(dim: nat, attributes: seq<Attribute>)
    requires Dimension(dim)
    ensures ReadFrom(dim, attributes) == ReadFrom(dim, KnownOnly(attributes))
    decreases |attributes|
  {
    if attributes != [] {
      var init, last := attributes[..|attributes| - 1], attributes[|attributes| - 1];
      UnknownIgnored(dim, init);
      if Known(last) {
        assert (KnownOnly(init) + [last])[..|KnownOnly(init)|] == KnownOnly(init);
      } else {
        assert KnownOnly(attributes) == KnownOnly(init);
        match ReadFrom(dim, init)
        case Ok(g) => assert Apply(dim, g, last) == Ok(g);
        case Err(e) =>
      }
    }
  }

  /** The WholeExtent loop: one pair of tokens per dimension. */
  method ReadExtent(dim: nat, value: string) returns (r: Result<seq<nat>>)
    ensures r == ExtentOf(dim, Split(value))
  {
    var tokens := Split(value);
    var cells: seq<nat> := [];
    for d := 0 to dim
      invariant |cells| == d && 2 * d <= |tokens|
      invariant forall k | 0 <= k < 2 * d :: Streams.ParseIndex(tokens[k]).Some?
      invariant forall e | 0 <= e < d :: cells[e] == VtkCells.ToIndex(IndexAt(tokens, 2 * e + 1) - IndexAt(tokens, 2 * e))
    {
      if 2 * d + 1 >= |tokens| {
        return Err("WholeExtent: missing or invalid index");
      }
      var start := Streams.ParseIndex(tokens[2 * d]);
      var end := Streams.ParseIndex(tokens[2 * d + 1]);
      if start.None? || end.None? {
        assert !IndexPairs(dim, tokens) by {
          if start.None? { assert !Streams.ParseIndex(tokens[2 * d]).Some?; }
          else { assert !Streams.ParseIndex(tokens[2 * d + 1]).Some?; }
        }
        return Err("WholeExtent: missing or invalid index");
      }
      cells := cells + [VtkCells.ToIndex(end.value - start.value)];
    }
    assert IndexPairs(dim, tokens);
    assert cells == ExtentOf(dim, tokens).value;
    return Ok(cells);
  }

  /** The Origin and Spacing loops: one token per dimension. */
  method ReadValues(dim: nat, value: string) returns (r: Result<seq<string>>)
    ensures r == ValuesOf(dim, Split(value))
  {
    var tokens := Split(value);
    var values: seq<string> := [];
    for d := 0 to dim
      invariant d <= |tokens| && values == tokens[..d]
    {
      if d >= |tokens| {
        return Err("too few values");
      }
      values := values + [tokens[d]];
    }
    return Ok(values);
  }

  /** The Direction loops: component i of direction d from token 3·d + i. */
  method ReadDirections(dim: nat, value: string) returns (r: Result<seq<seq<string>>>)
    requires Dimension(dim)
    ensures r == DirectionsOf(dim, Split(value))
  {
    var tokens := Split(value);
    var directions: seq<seq<string>> := [];
    for d := 0 to dim
      invariant |directions| == d
      invariant d > 0 ==> 3 * (d - 1) + dim <= |tokens|
      invariant forall e | 0 <= e < d :: directions[e] == tokens[3 * e..3 * e + dim]
    {
      var direction: seq<string> := [];
      for i := 0 to dim
        invariant |direction| == i && (i > 0 ==> 3 * d + i <= |tokens|)
        invariant forall j | 0 <= j < i :: 3 * d + j < |tokens| && direction[j] == tokens[3 * d + j]
      {
        if 3 * d + i >= |tokens| {
          return Err("Direction: too few values");
        }
        direction := direction + [tokens[3 * d + i]];
      }
      assert direction == tokens[3 * d..3 * d + dim];
      directions := directions + [direction];
    }
    assert 3 * (dim - 1) + dim <= |tokens|;
    assert directions == DirectionsOf(dim, tokens).value;
    return Ok(directions);
  }

  /** read_grid_attributes: the attributes of the node in order; a bad value throws. */
  method ReadGridAttributes(dim: nat, attributes: seq<Attribute>) returns (r: Result<GridAttributes>)
    requires Dimension(dim)
    ensures r == ReadFrom(dim, attributes)
  {
    var grid := Defaults(dim);
    for p := 0 to |attributes|
      invariant ReadFrom(dim, attributes[..p]) == Ok(grid)
    {
      assert attributes[..p + 1][..p] == attributes[..p];
      var (name, value) := attributes[p];
      if name == "WholeExtent" {
        var cells := ReadExtent(dim, value);
        if cells.Err? {
          assert ReadFrom(dim, attributes[..p + 1]) == Err(cells.message);
          ReadStops(dim, attributes, p + 1);
          return Err(cells.message);
        }
        grid := grid.(cellsNumber := cells.value);
      } else if name == "Origin" {
        var origin := ReadValues(dim, value);
        if origin.Err? {
          ReadStops(dim, attributes, p + 1);
          return Err(origin.message);
        }
        grid := grid.(origin := origin.value);
      } else if name == "Spacing" {
        var lengths := ReadValues(dim, value);
        if lengths.Err? {
          ReadStops(dim, attributes, p + 1);
          return Err(lengths.message);
        }
        grid := grid.(cellsLength := lengths.value);
      } else if name == "Direction" {
        var directions := ReadDirections(dim, value);
        if directions.Err? {
          ReadStops(dim, attributes, p + 1);
          return Err(directions.message);
        }
        grid := grid.(directions := directions.value);
      }
    }
    assert attributes[..|attributes|] == attributes;
    return Ok(grid);
  }

  /** Once an attribute has failed, the later ones do not matter. */
  lemma {:induction false} ReadStops(dim: nat, attributes: seq<Attribute>, p: nat)
    requires Dimension(dim) && p <= |attributes| && ReadFrom(dim, attributes[..p]).Err?
    ensures ReadFrom(dim, attributes) == ReadFrom(dim, attributes[..p])
    decreases |attributes| - p
  {
    if p < |attributes| {
      assert attributes[..p + 1][..p] == attributes[..p];
      ReadStops(dim, attributes, p + 1);
    } else {
      assert attributes[..p] == attributes;
    }
  }

  // ---------------------------------------------------------------------
  // Loadability
  // ---------------------------------------------------------------------

  /**
   * The check as written: cells_number[2], which for dimension 2 is read
   * past the end of a two-entry array (shown here as an error).
   */
  function LoadableAsWritten(dim: nat, attributes: seq<Attribute>): Result<bool>
    requires Dimension(dim)
  {
    match ReadFrom(dim, attributes)
    case Err(e) => Err(e)
    case Ok(g) =>
      if 2 < |g.cellsNumber| then Ok(if dim == 2 then g.cellsNumber[2] == 0 else g.cellsNumber[2] > 0)
      else Err("cells_number[2] is past the end of the array")
  }

  /** The third pair of a WholeExtent value, or 0 when it has none. */
  function ThirdOf(tokens: seq<string>): nat
  {
    if IndexPairs(3, tokens) then VtkCells.ToIndex(IndexAt(tokens, 5) - IndexAt(tokens, 4)) else 0
  }

  /** The cell count in the third direction given by the last WholeExtent, 0 without one. */
  function ThirdCells(attributes: seq<Attribute>): nat
  {
    if attributes == [] then 0
    else if attributes[|attributes| - 1].0 == "WholeExtent" then ThirdOf(Split(attributes[|attributes| - 1].1))
    else ThirdCells(attributes[..|attributes| - 1])
  }

  /** The check as intended: a flat image (no cells in the third direction) loads as 2D, any other as 3D. */
  function Loadable(dim: nat, attributes: seq<Attribute>): Result<bool>
    requires Dimension(dim)
  {
    match ReadFrom(dim, attributes)
    case Err(e) => Err(e)
    case Ok(g) => Ok(if dim == 2 then ThirdCells(attributes) == 0 else g.cellsNumber[2] > 0)
  }

  /** The check as written never reaches a verdict for dimension 2. */
  lemma LoadableAsWrittenUndecided2D(attributes: seq<Attribute>)
    ensures LoadableAsWritten(2, attributes).Err?
  {
  }

  /** For dimension 3 the check as written and the one as intended agree. */
  lemma LoadableAgrees3D(attributes: seq<Attribute>)
    ensures Loadable(3, attributes) == LoadableAsWritten(3, attributes)
  {
  }

  /** is_loadable / is_vtk_object_loadable with the third extent read from the value itself. */
  method IsLoadable(dim: nat, attributes: seq<Attribute>) returns (r: Result<bool>)
    requires Dimension(dim)
    ensures r == Loadable(dim, attributes)
  {
    var grid := ReadGridAttributes(dim, attributes);
    if grid.Err? {
      return Err(grid.message);
    }
    if dim == 3 {
      return Ok(grid.value.cellsNumber[2] > 0);
    }
    var third := 0;
    for p := 0 to |attributes|
      invariant third == ThirdCells(attributes[..p])
    {
      assert attributes[..p + 1][..p] == attributes[..p];
      if attributes[p].0 == "WholeExtent" {
        var tokens := Split(attributes[p].1);
        third := 0;
        if IndexPairs(3, tokens) {
          third := VtkCells.ToIndex(IndexAt(tokens, 5) - IndexAt(tokens, 4));
        }
      }
    }
    assert attributes[..|attributes|] == attributes;
    return Ok(third == 0);
  }

  // ---------------------------------------------------------------------
  // Writing
  // ---------------------------------------------------------------------

  /** The words of an extent string: "0" then the end index, for each direction. */
  function Pairs(ends: seq<nat>): (r: seq<string>)
    ensures |r| == 2 * |ends| && AllWords(r)
    ensures forall d | 0 <= d < |ends| :: r[2 * d] == "0" && r[2 * d + 1] == NatToString(ends[d])
  {
    if ends == [] then []
    else Pairs(ends[..|ends| - 1]) + ["0", NatToString(ends[|ends| - 1])]
  }

  /** The extent loop: "0 end" per direction, one space between directions. */
  method WriteExtent(ends: seq<nat>) returns (text: string)
    ensures text == JoinWords(Pairs(ends))
  {
    text := "";
    for d := 0 to |ends|
      invariant text == JoinWords(Pairs(ends[..d]))
    {
      PairsStep(ends, d);
      var separator := if d != 0 then " " else "";
      text := text + separator + "0 " + NatToString(ends[d]);
    }
    assert ends[..|ends|] == ends;
  }

  lemma PairsStep(ends: seq<nat>, d: nat)
    requires d < |ends|
    ensures JoinWords(Pairs(ends[..d + 1]))
            == JoinWords(Pairs(ends[..d])) + (if d != 0 then " " else "") + "0 " + NatToString(ends[d])
  {
    assert ends[..d + 1][..d] == ends[..d];
    JoinWordsConcat(Pairs(ends[..d]), ["0", NatToString(ends[d])]);
    assert JoinWords(["0", NatToString(ends[d])]) == "0 " + NatToString(ends[d]);
  }

  /** extent[d] − 1 as an index_t. */
  function ImageEnds(extent: seq<nat>): seq<nat>
  {
    seq(|extent|, d requires 0 <= d < |extent| => VtkCells.ToIndex(extent[d] as int - 1))
  }

  /** The ends an image header writes: one per direction, and an empty third direction in 2D. */
  function PaddedEnds(extent: seq<nat>): seq<nat>
  {
    ImageEnds(extent) + (if |extent| == 2 then [0] else [])
  }

  lemma ZeroText()
    ensures NatToString(0) == "0"
  {
  }

  /**
   * write_image_header of include/geode/io/image/detail/vti_output_impl.hpp:
   * the same six-index string as WholeExtent of the image and Extent of the piece.
   */
  method WriteImageExtent(extent: seq<nat>) returns (wholeExtent: string, pieceExtent: string)
    requires Dimension(|extent|)
    ensures wholeExtent == pieceExtent == JoinWords(Pairs(PaddedEnds(extent)))
    ensures |Split(wholeExtent)| == 6
  {
    var ends := ImageEnds(extent);
    var text := WriteExtent(ends);
    if |extent| == 2 {
      ZeroText();
      JoinWordsConcat(Pairs(ends), ["0", "0"]);
      assert JoinWords(["0", "0"]) == "0 0";
      assert Pairs(ends + [0]) == Pairs(ends) + ["0", "0"] by {
        assert (ends + [0])[..|ends|] == ends;
      }
      text := text + " 0 0";
    } else {
      assert PaddedEnds(extent) == ends;
    }
    SplitJoinWords(Pairs(PaddedEnds(extent)));
    wholeExtent, pieceExtent := text, text;
  }

  /** Point::string(): the coordinates separated by single spaces. */
  method WriteWords(words: seq<string>) returns (text: string)
    ensures text == JoinWords(words)
  {
    text := "";
    for d := 0 to |words|
      invariant text == JoinWords(words[..d])
    {
      assert words[..d + 1] == words[..d] + [words[d]];
      if d != 0 {
        JoinWordsAppend(words[..d], words[d]);
        text := text + " ";
      }
      text := text + words[d];
    }
    assert words[..|words|] == words;
  }

  /** Origin and spacing words with the padding a 2D header gets. */
  function Padded(words: seq<string>, dim: nat, pad: string): seq<string>
  {
    words + (if dim == 2 then [pad] else [])
  }

  /** The ImageData attributes of include/geode/io/image/private/vti_output_impl.h, in the order they are set. */
  function GeometryAttributes(origin: seq<string>, extent: seq<nat>, spacing: seq<string>): seq<Attribute>
  {
    [("WholeExtent", JoinWords(Pairs(PaddedEnds(extent)))),
     ("Origin", JoinWords(Padded(origin, |extent|, "0"))),
     ("Spacing", JoinWords(Padded(spacing, |extent|, "1")))]
  }

  /** write_image_header of include/geode/io/image/private/vti_output_impl.h. */
  method WriteGeometryHeader(origin: seq<string>, extent: seq<nat>, spacing: seq<string>)
    returns (attributes: seq<Attribute>, pieceExtent: string)
    requires Dimension(|extent|) && |origin| == |spacing| == |extent|
    ensures attributes == GeometryAttributes(origin, extent, spacing)
    ensures pieceExtent == attributes[0].1
  {
    var dim := |extent|;
    var wholeExtent;
    wholeExtent, pieceExtent := WriteImageExtent(extent);
    var originText := WriteWords(origin);
    var spacingText := WriteWords(spacing);
    if dim == 2 {
      JoinWordsAppend(origin, "0");
      JoinWordsAppend(spacing, "1");
      assert JoinWords(origin) + " " + "0" == JoinWords(origin) + " 0";
      assert JoinWords(spacing) + " " + "1" == JoinWords(spacing) + " 1";
      originText := originText + " 0";
      spacingText := spacingText + " 1";
    } else {
      assert Padded(origin, dim, "0") == origin && Padded(spacing, dim, "1") == spacing;
    }
    attributes := [("WholeExtent", wholeExtent), ("Origin", originText), ("Spacing", spacingText)];
  }

  /** The words the direction loop writes: each direction, padded with a 0 component in 2D. */
  function DirectionWords(dirs: seq<seq<string>>, dim: nat): (r: seq<string>)
    requires Dimension(dim)
    requires forall d | 0 <= d < |dirs| :: |dirs[d]| == dim
    ensures |r| == 3 * |dirs|
    ensures forall d, i | 0 <= d < |dirs| && 0 <= i < dim :: r[3 * d + i] == dirs[d][i]
  {
    if dirs == [] then []
    else DirectionWords(dirs[..|dirs| - 1], dim) + Padded(dirs[|dirs| - 1], dim, "0")
  }

  /** The Direction value: in 2D the third axis (0 0 1) is added, so there are always nine words. */
  function DirectionText(dirs: seq<seq<string>>, dim: nat): string
    requires Dimension(dim)
    requires forall d | 0 <= d < |dirs| :: |dirs[d]| == dim
  {
    JoinWords(DirectionWords(dirs, dim) + (if dim == 2 then ["0", "0", "1"] else []))
  }

  /** The direction loop of write_header in include/geode/io/mesh/detail/vti_grid_output.h. */
  method WriteDirections(dirs: seq<seq<string>>, dim: nat) returns (text: string)
    requires Dimension(dim) && |dirs| == dim
    requires forall d | 0 <= d < dim :: |dirs[d]| == dim
    ensures text == DirectionText(dirs, dim)
  {
    text := "";
    for d := 0 to dim
      invariant text == JoinWords(DirectionWords(dirs[..d], dim))
    {
      var direction := WriteWords(dirs[d]);
      DirectionStep(dirs, dim, d);
      var separator := if d != 0 then " " else "";
      var pad := if dim == 2 then " 0" else "";
      text := text + separator + direction + pad;
    }
    assert dirs[..dim] == dirs;
    if dim == 2 {
      JoinWordsConcat(DirectionWords(dirs, dim), ["0", "0", "1"]);
      assert text + " " + "0 0 1" == text + " 0 0 1";
      assert JoinWords(["0", "0", "1"]) == "0 0 1" by {
        JoinWordsAppend(["0", "0"], "1");
        assert ["0", "0"] + ["1"] == ["0", "0", "1"];
      }
      text := text + " 0 0 1";
    } else {
      assert DirectionWords(dirs, dim) + [] == DirectionWords(dirs, dim);
    }
  }

  lemma DirectionStep(dirs: seq<seq<string>>, dim: nat, d: nat)
    requires Dimension(dim) && d < |dirs|
    requires forall e | 0 <= e < |dirs| :: |dirs[e]| == dim
    ensures JoinWords(DirectionWords(dirs[..d + 1], dim))
            == JoinWords(DirectionWords(dirs[..d], dim)) + (if d != 0 then " " else "")
               + JoinWords(dirs[d]) + (if dim == 2 then " 0" else "")
  {
    DirectionWordsSnoc(dirs, dim, d);
    var before := DirectionWords(dirs[..d], dim);
    assert before == [] <==> d == 0;
    PaddedText(before, dirs[d], dim);
  }

  lemma DirectionWordsSnoc(dirs: seq<seq<string>>, dim: nat, d: nat)
    requires Dimension(dim) && d < |dirs|
    requires forall e | 0 <= e < |dirs| :: |dirs[e]| == dim
    ensures DirectionWords(dirs[..d + 1], dim) == DirectionWords(dirs[..d], dim) + Padded(dirs[d], dim, "0")
  {
    assert dirs[..d + 1][..d] == dirs[..d];
  }

  /** The text of some words followed by a direction block. */
  lemma PaddedText(before: seq<string>, direction: seq<string>, dim: nat)
    requires direction != []
    ensures JoinWords(before + Padded(direction, dim, "0"))
            == JoinWords(before) + (if before == [] then "" else " ")
               + JoinWords(direction) + (if dim == 2 then " 0" else "")
  {
    JoinWordsConcat(before, Padded(direction, dim, "0"));
    if dim == 2 {
      JoinWordsAppend(direction, "0");
    } else {
      assert Padded(direction, dim, "0") == direction;
    }
  }

  /** The ImageData attributes of include/geode/io/mesh/detail/vti_grid_output.h, in the order they are set. */
  function GridHeaderAttributes(nbVertices: seq<nat>, origin: seq<string>, lengths: seq<string>, dirs: seq<seq<string>>): seq<Attribute>
    requires Dimension(|nbVertices|)
    requires forall d | 0 <= d < |dirs| :: |dirs[d]| == |nbVertices|
  {
    [("WholeExtent", JoinWords(Pairs(PaddedEnds(nbVertices)))),
     ("Origin", JoinWords(Padded(origin, |nbVertices|, "0"))),
     ("Spacing", JoinWords(Padded(lengths, |nbVertices|, "1"))),
     ("Direction", DirectionText(dirs, |nbVertices|))]
  }

  /**
   * VTIGridOutputImpl::write_piece and write_header: the extent from the
   * vertex counts, then origin, cell lengths and normalized directions.
   */
  method WriteGridHeader(nbVertices: seq<nat>, origin: seq<string>, lengths: seq<string>, dirs: seq<seq<string>>)
    returns (attributes: seq<Attribute>, pieceExtent: string)
    requires Dimension(|nbVertices|) && |origin| == |lengths| == |dirs| == |nbVertices|
    requires forall d | 0 <= d < |dirs| :: |dirs[d]| == |nbVertices|
    ensures attributes == GridHeaderAttributes(nbVertices, origin, lengths, dirs)
    ensures pieceExtent == attributes[0].1
  {
    var dim := |nbVertices|;
    var extent: seq<nat> := [];
    for d := 0 to dim
      invariant extent == nbVertices[..d]
    {
      extent := extent + [nbVertices[d]];
    }
    assert extent == nbVertices;
    var wholeExtent;
    wholeExtent, pieceExtent := WriteImageExtent(extent);
    var originText := WriteWords(origin);
    var spacingText := WriteWords(lengths);
    if dim == 2 {
      JoinWordsAppend(origin, "0");
      JoinWordsAppend(lengths, "1");
      assert JoinWords(origin) + " " + "0" == JoinWords(origin) + " 0";
      assert JoinWords(lengths) + " " + "1" == JoinWords(lengths) + " 1";
      originText := originText + " 0";
      spacingText := spacingText + " 1";
    } else {
      assert Padded(origin, dim, "0") == origin && Padded(lengths, dim, "1") == lengths;
    }
    var directionText := WriteDirections(dirs, dim);
    attributes := [("WholeExtent", wholeExtent), ("Origin", originText),
                   ("Spacing", spacingText), ("Direction", directionText)];
  }

  /** The ImageData attributes of src/geode/io/mesh/vti_regular_grid_output.cpp: "0 n" per direction, no padding. */
  function RegularGridAttributes(cells: seq<nat>, origin: seq<string>, sizes: seq<string>): seq<Attribute>
  {
    [("WholeExtent", JoinWords(Pairs(cells))), ("Origin", JoinWords(origin)), ("Spacing", JoinWords(sizes))]
  }

  /** write_image_header of src/geode/io/mesh/vti_regular_grid_output.cpp. */
  method WriteRegularGridHeader(cells: seq<nat>, origin: seq<string>, sizes: seq<string>)
    returns (attributes: seq<Attribute>, pieceExtent: string)
    ensures attributes == RegularGridAttributes(cells, origin, sizes)
    ensures pieceExtent == attributes[0].1
  {
    var extent := WriteExtent(cells);
    var originText := WriteWords(origin);
    var spacingText := WriteWords(sizes);
    attributes := [("WholeExtent", extent), ("Origin", originText), ("Spacing", spacingText)];
    pieceExtent := extent;
  }

  // ---------------------------------------------------------------------
  // Writing, then reading back
  // ---------------------------------------------------------------------

  lemma ZeroIndex()
    ensures Streams.ParseIndex("0") == Some(0)
  {
    assert DigitsValue("0") == 10 * DigitsValue("") + DigitValue('0');
  }

  /** An extent string reads back, for the first dim directions, as the ends it was written from. */
  lemma {:induction false} PairsReadBack(ends: seq<nat>, dim: nat)
    requires dim <= |ends| && VtkCells.IndexValues(ends)
    ensures ExtentOf(dim, Pairs(ends)) == Ok(ends[..dim])
  {
    var tokens := Pairs(ends);
    ZeroIndex();
    forall d | 0 <= d < |ends|
      ensures Streams.ParseIndex(tokens[2 * d]) == Some(0)
      ensures Streams.ParseIndex(tokens[2 * d + 1]) == Some(ends[d])
    {
      NatToStringRoundTrip(ends[d]);
    }
    forall k | 0 <= k < 2 * dim
      ensures Streams.ParseIndex(tokens[k]).Some?
    {
      var d := k / 2;
      assert d < |ends|;
      if k % 2 == 0 {
        assert k == 2 * d && tokens[k] == "0";
      } else {
        assert k == 2 * d + 1 && tokens[k] == NatToString(ends[d]);
        NatToStringRoundTrip(ends[d]);
      }
    }
    assert IndexPairs(dim, tokens);
    forall d | 0 <= d < dim ensures ExtentOf(dim, tokens).value[d] == ends[d] {
      assert IndexAt(tokens, 2 * d + 1) == ends[d] && IndexAt(tokens, 2 * d) == 0;
    }
    assert ExtentOf(dim, tokens).value == ends[..dim];
  }

  /** A written Origin or Spacing value reads back as the words it was written from. */
  lemma PaddedReadBack(words: seq<string>, dim: nat, pad: string)
    requires |words| == dim && AllWords(words) && IsWord(pad)
    ensures ValuesOf(dim, Split(JoinWords(Padded(words, dim, pad)))) == Ok(words)
  {
    SplitJoinWords(Padded(words, dim, pad));
  }

  /** The Direction value reads back, through the stride of 3, as the directions it was written from. */
  lemma DirectionsReadBack(dirs: seq<seq<string>>, dim: nat)
    requires Dimension(dim) && |dirs| == dim
    requires forall d | 0 <= d < dim :: |dirs[d]| == dim && AllWords(dirs[d])
    ensures DirectionsOf(dim, Split(DirectionText(dirs, dim))) == Ok(dirs)
  {
    var words := DirectionWords(dirs, dim) + (if dim == 2 then ["0", "0", "1"] else []);
    assert AllWords(words) by {
      forall k | 0 <= k < |words| ensures IsWord(words[k]) {
        if k < 3 * dim {
          var d, i := k / 3, k % 3;
          assert k == 3 * d + i;
          if i < dim {
            assert words[k] == dirs[d][i];
          } else {
            DirectionPad(dirs, d);
          }
        }
      }
    }
    SplitJoinWords(words);
    var r := seq(dim, d requires 0 <= d < dim => words[3 * d..3 * d + dim]);
    forall d | 0 <= d < dim ensures r[d] == dirs[d] {
      forall i | 0 <= i < dim ensures r[d][i] == dirs[d][i] {
        assert r[d][i] == words[3 * d + i] == DirectionWords(dirs, dim)[3 * d + i];
      }
    }
    assert r == dirs;
  }

  /** In 2D the third word of each direction block is the "0" pad. */
  lemma DirectionPad(dirs: seq<seq<string>>, d: nat)
    requires 0 <= d < |dirs| && forall e | 0 <= e < |dirs| :: |dirs[e]| == 2
    ensures DirectionWords(dirs, 2)[3 * d + 2] == "0"
    decreases |dirs|
  {
    var init := dirs[..|dirs| - 1];
    if d < |dirs| - 1 {
      DirectionPad(init, d);
    }
  }

  /** Reading one more attribute applies it to the record read so far. */
  lemma ReadStep(dim: nat, attributes: seq<Attribute>, p: nat, g: GridAttributes)
    requires Dimension(dim) && p < |attributes| && ReadFrom(dim, attributes[..p]) == Ok(g)
    ensures ReadFrom(dim, attributes[..p + 1]) == Apply(dim, g, attributes[p])
  {
    assert attributes[..p + 1][..p] == attributes[..p];
  }

  /** The first attribute of an image header: WholeExtent, read as the ends written for the first dim directions. */
  lemma ExtentAttributeReadsBack(dim: nat, ends: seq<nat>, g: GridAttributes)
    requires Dimension(dim) && Shaped(dim, g) && dim <= |ends| && VtkCells.IndexValues(ends)
    ensures Apply(dim, g, ("WholeExtent", JoinWords(Pairs(ends)))) == Ok(g.(cellsNumber := ends[..dim]))
  {
    SplitJoinWords(Pairs(ends));
    PairsReadBack(ends, dim);
  }

  lemma OriginAttributeReadsBack(dim: nat, g: GridAttributes, text: string, words: seq<string>)
    requires Dimension(dim) && Shaped(dim, g) && ValuesOf(dim, Split(text)) == Ok(words)
    ensures Apply(dim, g, ("Origin", text)) == Ok(g.(origin := words))
  {
  }

  lemma SpacingAttributeReadsBack(dim: nat, g: GridAttributes, text: string, words: seq<string>)
    requires Dimension(dim) && Shaped(dim, g) && ValuesOf(dim, Split(text)) == Ok(words)
    ensures Apply(dim, g, ("Spacing", text)) == Ok(g.(cellsLength := words))
  {
  }

  lemma DirectionAttributeReadsBack(dim: nat, g: GridAttributes, text: string, dirs: seq<seq<string>>)
    requires Dimension(dim) && Shaped(dim, g) && DirectionsOf(dim, Split(text)) == Ok(dirs)
    ensures Apply(dim, g, ("Direction", text)) == Ok(g.(directions := dirs))
  {
  }

  /** The ends of an image header are index_t values. */
  lemma PaddedEndsIndices(extent: seq<nat>)
    ensures VtkCells.IndexValues(PaddedEnds(extent))
    ensures |extent| <= |PaddedEnds(extent)| && PaddedEnds(extent)[..|extent|] == ImageEnds(extent)
  {
  }

  /** Three attributes, each applying to the record left by the one before. */
  lemma ReadThree(dim: nat, a: seq<Attribute>, g1: GridAttributes, g2: GridAttributes, g3: GridAttributes)
    requires Dimension(dim) && |a| == 3 && Shaped(dim, g1) && Shaped(dim, g2)
    requires Apply(dim, Defaults(dim), a[0]) == Ok(g1)
    requires Apply(dim, g1, a[1]) == Ok(g2)
    requires Apply(dim, g2, a[2]) == Ok(g3)
    ensures ReadFrom(dim, a) == Ok(g3)
  {
    assert a[..0] == [];
    ReadStep(dim, a, 0, Defaults(dim));
    ReadStep(dim, a, 1, g1);
    ReadStep(dim, a, 2, g2);
    assert a[..3] == a;
  }

  /** An image header written with origin, extent and spacing reads back as those values and the default directions. */
  lemma GeometryHeaderReadsBack(origin: seq<string>, extent: seq<nat>, spacing: seq<string>)
    requires Dimension(|extent|) && |origin| == |spacing| == |extent|
    requires AllWords(origin) && AllWords(spacing)
    ensures ReadFrom(|extent|, GeometryAttributes(origin, extent, spacing))
            == Ok(GridAttributes(origin, ImageEnds(extent), spacing, Identity(|extent|)))
  {
    GeometryTexts(origin, extent, spacing);
    HeaderReadsBack(|extent|, GeometryAttributes(origin, extent, spacing), ImageEnds(extent), origin, spacing);
  }

  /** Each value of an image header, tokenized, gives back what it was written from. */
  lemma GeometryTexts(origin: seq<string>, extent: seq<nat>, spacing: seq<string>)
    requires Dimension(|extent|) && |origin| == |spacing| == |extent|
    requires AllWords(origin) && AllWords(spacing)
    ensures ExtentOf(|extent|, Split(JoinWords(Pairs(PaddedEnds(extent))))) == Ok(ImageEnds(extent))
    ensures ValuesOf(|extent|, Split(JoinWords(Padded(origin, |extent|, "0")))) == Ok(origin)
    ensures ValuesOf(|extent|, Split(JoinWords(Padded(spacing, |extent|, "1")))) == Ok(spacing)
  {
    PaddedEndsIndices(extent);
    SplitJoinWords(Pairs(PaddedEnds(extent)));
    PairsReadBack(PaddedEnds(extent), |extent|);
    PaddedReadBack(origin, |extent|, "0");
    PaddedReadBack(spacing, |extent|, "1");
  }

  /** WholeExtent, Origin and Spacing, in that order, each read as the given values. */
  lemma HeaderReadsBack(dim: nat, a: seq<Attribute>, cells: seq<nat>, origin: seq<string>, spacing: seq<string>)
    requires Dimension(dim) && |a| == 3
    requires a[0].0 == "WholeExtent" && a[1].0 == "Origin" && a[2].0 == "Spacing"
    requires ExtentOf(dim, Split(a[0].1)) == Ok(cells)
    requires ValuesOf(dim, Split(a[1].1)) == Ok(origin)
    requires ValuesOf(dim, Split(a[2].1)) == Ok(spacing)
    ensures ReadFrom(dim, a) == Ok(GridAttributes(origin, cells, spacing, Identity(dim)))
  {
    var g0 := Defaults(dim);
    var g1 := g0.(cellsNumber := cells);
    var g2 := g1.(origin := origin);
    assert a[..0] == [];
    ReadStep(dim, a, 0, g0);
    ReadStep(dim, a, 1, g1);
    ReadStep(dim, a, 2, g2);
    assert a[..3] == a;
  }

  /** A grid header reads back as the cell counts nb_vertices − 1, the origin, the lengths and the directions written. */
  lemma GridHeaderReadsBack(nbVertices: seq<nat>, origin: seq<string>, lengths: seq<string>, dirs: seq<seq<string>>)
    requires Dimension(|nbVertices|) && |origin| == |lengths| == |dirs| == |nbVertices|
    requires AllWords(origin) && AllWords(lengths)
    requires forall d | 0 <= d < |dirs| :: |dirs[d]| == |nbVertices| && AllWords(dirs[d])
    ensures ReadFrom(|nbVertices|, GridHeaderAttributes(nbVertices, origin, lengths, dirs))
            == Ok(GridAttributes(origin, ImageEnds(nbVertices), lengths, dirs))
  {
    GeometryTexts(origin, nbVertices, lengths);
    DirectionsReadBack(dirs, |nbVertices|);
    GridReadsBack(|nbVertices|, GridHeaderAttributes(nbVertices, origin, lengths, dirs), ImageEnds(nbVertices), origin, lengths, dirs);
  }

  /** WholeExtent, Origin, Spacing and Direction, in that order, each read as the given values. */
  lemma GridReadsBack(dim: nat, a: seq<Attribute>, cells: seq<nat>, origin: seq<string>, spacing: seq<string>, dirs: seq<seq<string>>)
    requires Dimension(dim) && |a| == 4
    requires a[0].0 == "WholeExtent" && a[1].0 == "Origin" && a[2].0 == "Spacing" && a[3].0 == "Direction"
    requires ExtentOf(dim, Split(a[0].1)) == Ok(cells)
    requires ValuesOf(dim, Split(a[1].1)) == Ok(origin)
    requires ValuesOf(dim, Split(a[2].1)) == Ok(spacing)
    requires DirectionsOf(dim, Split(a[3].1)) == Ok(dirs)
    ensures ReadFrom(dim, a) == Ok(GridAttributes(origin, cells, spacing, dirs))
  {
    HeaderReadsBack(dim, a[..3], cells, origin, spacing);
    ReadStep(dim, a, 3, GridAttributes(origin, cells, spacing, Identity(dim)));
    assert a[..4] == a;
  }

  /** A regular grid header reads back as the cell counts, origin and cell sizes written. */
  lemma RegularGridHeaderReadsBack(cells: seq<nat>, origin: seq<string>, sizes: seq<string>)
    requires Dimension(|cells|) && |origin| == |sizes| == |cells|
    requires VtkCells.IndexValues(cells) && AllWords(origin) && AllWords(sizes)
    ensures ReadFrom(|cells|, RegularGridAttributes(cells, origin, sizes))
            == Ok(GridAttributes(origin, cells, sizes, Identity(|cells|)))
  {
    RegularTexts(cells, origin, sizes);
    HeaderReadsBack(|cells|, RegularGridAttributes(cells, origin, sizes), cells, origin, sizes);
  }

  /** Each value of a regular grid header, tokenized, gives back what it was written from. */
  lemma RegularTexts(cells: seq<nat>, origin: seq<string>, sizes: seq<string>)
    requires Dimension(|cells|) && |origin| == |sizes| == |cells|
    requires VtkCells.IndexValues(cells) && AllWords(origin) && AllWords(sizes)
    ensures ExtentOf(|cells|, Split(JoinWords(Pairs(cells)))) == Ok(cells)
    ensures ValuesOf(|cells|, Split(JoinWords(origin))) == Ok(origin)
    ensures ValuesOf(|cells|, Split(JoinWords(sizes))) == Ok(sizes)
  {
    SplitJoinWords(Pairs(cells));
    PairsReadBack(cells, |cells|);
    assert cells[..|cells|] == cells;
    SplitJoinWords(origin);
    assert origin[..|cells|] == origin;
    SplitJoinWords(sizes);
    assert sizes[..|cells|] == sizes;
  }

  /** The third cell count of a header whose WholeExtent comes first and whose other attributes are not WholeExtent. */
  lemma ThirdCellsOfHeader(a: seq<Attribute>)
    requires 1 <= |a| <= 4 && a[0].0 == "WholeExtent"
    requires forall k | 1 <= k < |a| :: a[k].0 != "WholeExtent"
    ensures ThirdCells(a) == ThirdOf(Split(a[0].1))
    decreases |a|
  {
    if |a| > 1 {
      var init := a[..|a| - 1];
      ThirdCellsOfHeader(init);
    }
  }

  /**
   * An image header is recognized by its own dimension: a 2D header loads
   * as 2D, and a 3D header loads as 3D exactly when its third direction has
   * more than one vertex.
   */
  lemma {:induction false} ImageHeaderLoadable(origin: seq<string>, extent: seq<nat>, spacing: seq<string>)
    requires Dimension(|extent|) && |origin| == |spacing| == |extent| && VtkCells.IndexValues(extent)
    requires AllWords(origin) && AllWords(spacing)
    ensures |extent| == 2 ==> Loadable(2, GeometryAttributes(origin, extent, spacing)) == Ok(true)
    ensures |extent| == 3 ==> Loadable(3, GeometryAttributes(origin, extent, spacing)) == Ok(extent[2] != 1)
  {
    var a := GeometryAttributes(origin, extent, spacing);
    GeometryHeaderReadsBack(origin, extent, spacing);
    if |extent| == 2 {
      var ends := PaddedEnds(extent);
      PaddedEndsIndices(extent);
      SplitJoinWords(Pairs(ends));
      PairsReadBack(ends, 3);
      assert ThirdOf(Pairs(ends)) == ends[2] == 0;
      ThirdCellsOfHeader(a);
    } else {
      assert ImageEnds(extent)[2] == VtkCells.ToIndex(extent[2] as int - 1);
    }
  }

  /** A 2D regular grid header loads as 2D, and is refused, short of a third pair, by the 3D reader. */
  lemma {:induction false} RegularGridHeaderLoadable2D(cells: seq<nat>, origin: seq<string>, sizes: seq<string>)
    requires |cells| == 2 && |origin| == |sizes| == 2
    requires VtkCells.IndexValues(cells) && AllWords(origin) && AllWords(sizes)
    ensures Loadable(2, RegularGridAttributes(cells, origin, sizes)) == Ok(true)
    ensures Loadable(3, RegularGridAttributes(cells, origin, sizes)).Err?
  {
    var a := RegularGridAttributes(cells, origin, sizes);
    RegularGridHeaderReadsBack(cells, origin, sizes);
    SplitJoinWords(Pairs(cells));
    assert !IndexPairs(3, Pairs(cells));
    ThirdCellsOfHeader(a);
    assert a[..0] == [];
    ReadStep(3, a, 0, Defaults(3));
    ReadStops(3, a, 1);
  }

  /** The image header that shows the finding: 2D, loadable as intended, but undecided as written. */
  lemma LoadableAsWrittenUndecidedOn2DHeader()
    ensures Loadable(2, GeometryAttributes(["0", "0"], [5, 5], ["1", "1"])) == Ok(true)
    ensures LoadableAsWritten(2, GeometryAttributes(["0", "0"], [5, 5], ["1", "1"])).Err?
  {
    ImageHeaderLoadable(["0", "0"], [5, 5], ["1", "1"]);
    LoadableAsWrittenUndecided2D(GeometryAttributes(["0", "0"], [5, 5], ["1", "1"]));
  }
}
