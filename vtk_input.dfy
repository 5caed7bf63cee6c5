/**
 * The common part of the VTK XML readers: the `match` test on attribute
 * values, the checks on the root `VTKFile` element, the appended-data
 * section, the choice of how a DataArray is stored, the base64 length
 * arithmetic of the compressed layout and the attribute builders.
 * XML parsing, base64 decoding and zlib inflation are foreign: the text of
 * the XML attributes is given, and the decoders are function parameters.
 */
module VtkInput {
  import opened Wrappers
  import opened Text
  import VtkCells

  // Messages of the exceptions the reader throws
  const BASE64_ERROR: string := "[VTKInput::decode] Error in decoding base64 data"
  const BASE64_UNCOMPRESSED_ERROR: string := "[VTKInput::decode] Error in decoding base64 uncompressed data"
  const ZLIB_ERROR: string := "[VTKInput::decode] Error in zlib decompressing data"
  const SHORT_DATA_ERROR: string := "[VTKInput::decode] data shorter than its header"
  const APPENDED_ENCODING_ERROR: string := "[VTKInput::read_appended_data] VTK AppendedData section should be encoded"
  const EMPTY_APPENDED_ERROR: string := "[VTKInput::read_appended_data] empty AppendedData section"
  const ATTRIBUTE_ERROR: string := "[VTKInput::read_attribute] Failed to read attribute"
  const ATTRIBUTE_TYPE_ERROR: string := "[VTKInput::read_data] Attribute of type "
  const BIG_ENDIAN_ERROR: string := "[VTKInput::read_root_attributes] Big Endian not supported"
  const HEADER_TYPE_ERROR: string := "[VTKInput::read_root_attributes] Cannot read VTKFile with header_type "
  const COMPRESSOR_ERROR: string := "[VTKInput::read_root_attributes] Only vtkZLibDataCompressor is supported for now"
  const FILE_TYPE_ERROR: string := "[VTKInput::read_root_attributes] VTK File type should be "

  // ---------------------------------------------------------------------
  // match
  // ---------------------------------------------------------------------

  /** `match(query, ref)`: ref is both a prefix and a suffix of query. */
  predicate Match(query: string, ref: string) {
    StartsWith(query, ref) && EndsWith(query, ref)
  }

  /** A value always matches itself; a value no longer than the reference matches only it. */
  lemma MatchSameLength(query: string, ref: string)
    ensures Match(ref, ref)
    ensures |query| <= |ref| ==> (Match(query, ref) <==> query == ref)
  {
    assert ref[..|ref|] == ref && ref[|ref| - |ref|..] == ref;
    if |query| <= |ref| && Match(query, ref) {
      assert query[..|ref|] == query;
    }
  }

  /** `match` is weaker than equality: the reference twice over matches it. */
  lemma MatchNotEquality()
    ensures Match("UInt64UInt64", "UInt64") && "UInt64UInt64" != "UInt64"
    ensures !Match("UInt32", "UInt64")
  {
    assert "UInt64UInt64"[..6] == "UInt64";
    assert "UInt64UInt64"[6..] == "UInt64";
    assert "UInt32"[4] != "UInt64"[4];
  }

  // ---------------------------------------------------------------------
  // read_attribute: absl::SimpleAtoi into index_t
  // ---------------------------------------------------------------------

  /** The largest index_t. */
  const INDEX_MAX: nat := VtkCells.INDEX_MODULUS - 1

  /** read_attribute: decimal digits whose value fits in index_t, otherwise the read throws. */
  function ReadAttribute(text: string): (r: Result<nat>)
    ensures r.Ok? <==> ParseNat(text).Some? && ParseNat(text).value <= INDEX_MAX
    ensures r.Ok? ==> r.value == ParseNat(text).value
  {
    match ParseNat(text)
    case Some(v) => if v <= INDEX_MAX then Ok(v) else Err(ATTRIBUTE_ERROR)
    case None => Err(ATTRIBUTE_ERROR)
  }

  // ---------------------------------------------------------------------
  // The root element
  // ---------------------------------------------------------------------

  /** The attributes of the `VTKFile` element that the readers look at; an absent one reads as "". */
  datatype Root = Root(fileType: string, byteOrder: string, compressor: string, headerType: Option<string>)

  /** The `AppendedData` element: its `encoding` attribute and its text. */
  datatype Appended = Appended(encoding: string, text: string)

  class VtkReader {
    var littleEndian: bool
    var compressed: bool
    var isUint64: bool
    var appendedData: string

    /** The members' initial values. */
    constructor ()
      ensures littleEndian && !compressed && !isUint64 && appendedData == ""
    {
      littleEndian, compressed, isUint64, appendedData := true, false, false, "";
    }

    /**
     * read_root_attributes (current reader): the file type must match the
     * expected one and the byte order LittleEndian; the compressor must be
     * empty or vtkZLibDataCompressor and the data is compressed iff it is
     * non-empty; a header_type, when present, must be UInt32 or UInt64 and
     * selects 64-bit headers iff it matches UInt64.
     */
    method ReadRootAttributes(root: Root, expected: string) returns (r: Outcome)
      modifies this
      ensures appendedData == old(appendedData)
      ensures r.Pass? <==>
        Match(root.fileType, expected) && Match(root.byteOrder, "LittleEndian") &&
        (root.compressor == "" || Match(root.compressor, "vtkZLibDataCompressor")) &&
        (root.headerType.Some? ==> Match(root.headerType.value, "UInt32") || Match(root.headerType.value, "UInt64"))
      ensures r.Pass? ==> littleEndian && compressed == (root.compressor != "")
      ensures r.Pass? ==> isUint64 == (if root.headerType.Some? then Match(root.headerType.value, "UInt64") else old(isUint64))
    {
      if !Match(root.fileType, expected) {
        return Fail(FILE_TYPE_ERROR + expected);
      }
      littleEndian := Match(root.byteOrder, "LittleEndian");
      if !littleEndian {
        return Fail(BIG_ENDIAN_ERROR);
      }
      if !(root.compressor == "" || Match(root.compressor, "vtkZLibDataCompressor")) {
        return Fail(COMPRESSOR_ERROR);
      }
      compressed := root.compressor != "";
      if root.headerType.Some? {
        var value := root.headerType.value;
        if !(Match(value, "UInt32") || Match(value, "UInt64")) {
          return Fail(HEADER_TYPE_ERROR + value);
        }
        isUint64 := Match(value, "UInt64");
      }
      return Pass;
    }

    /**
     * read_root_attributes (older reader): the same checks except that the
     * byte order is only recorded, so a big-endian file is accepted.
     */
    method ReadRootAttributesLegacy(root: Root, expected: string) returns (r: Outcome)
      modifies this
      ensures appendedData == old(appendedData)
      ensures r.Pass? <==>
        Match(root.fileType, expected) &&
        (root.compressor == "" || Match(root.compressor, "vtkZLibDataCompressor")) &&
        (root.headerType.Some? ==> Match(root.headerType.value, "UInt32") || Match(root.headerType.value, "UInt64"))
      ensures r.Pass? ==> littleEndian == Match(root.byteOrder, "LittleEndian")
      ensures r.Pass? ==> compressed == (root.compressor != "")
      ensures r.Pass? ==> isUint64 == (if root.headerType.Some? then Match(root.headerType.value, "UInt64") else old(isUint64))
    {
      if !Match(root.fileType, expected) {
        return Fail(FILE_TYPE_ERROR + expected);
      }
      littleEndian := Match(root.byteOrder, "LittleEndian");
      if !(root.compressor == "" || Match(root.compressor, "vtkZLibDataCompressor")) {
        return Fail(COMPRESSOR_ERROR);
      }
      compressed := root.compressor != "";
      if root.headerType.Some? {
        var value := root.headerType.value;
        if !(Match(value, "UInt32") || Match(value, "UInt64")) {
          return Fail(HEADER_TYPE_ERROR + value);
        }
        isUint64 := Match(value, "UInt64");
      }
      return Pass;
    }

    /**
     * read_appended_data: without an AppendedData element nothing changes;
     * otherwise its encoding must be base64, and the data kept is its text,
     * stripped, without the leading '_' marker.
     */
    method ReadAppendedData(node: Option<Appended>) returns (r: Outcome)
      modifies this
      ensures littleEndian == old(littleEndian) && compressed == old(compressed) && isUint64 == old(isUint64)
      ensures node.None? ==> r.Pass? && appendedData == old(appendedData)
      ensures node.Some? ==> (r.Pass? <==> Match(node.value.encoding, "base64") && Trim(node.value.text) != [])
      ensures r.Pass? && node.Some? ==> appendedData == Trim(node.value.text)[1..]
      ensures r.Pass? && node.Some? ==> |appendedData| + 1 == |Trim(node.value.text)|
    {
      if node.None? {
        return Pass;
      }
      if !Match(node.value.encoding, "base64") {
        return Fail(APPENDED_ENCODING_ERROR);
      }
      var text := Trim(node.value.text);
      if text == [] {
        return Fail(EMPTY_APPENDED_ERROR);
      }
      appendedData := text[1..];
      return Pass;
    }

    /**
     * read_appended_data(data): the data of one array is the appended text
     * from its `offset` on; an offset past the end throws.
     */
    function ArrayData(offset: nat): (r: Result<string>)
      reads this
      ensures r.Ok? <==> offset <= |appendedData|
      ensures r.Ok? ==> appendedData == appendedData[..offset] + r.value
    {
      if offset <= |appendedData| then Ok(appendedData[offset..])
      else Err("basic_string_view::substr: offset out of range")
    }
  }

  // ---------------------------------------------------------------------
  // Where a DataArray's values come from
  // ---------------------------------------------------------------------

  /** The text a DataArray is decoded from, and how. */
  datatype Source =
    | Base64(text: string)          // appended or inline binary: decoded by `decode`
    | AsciiText(text: string)       // stripped ascii text, converted piece by piece

  /**
   * read_*_data_array: format "appended" takes the array's part of the
   * appended data; otherwise the element text is stripped and is ascii
   * values when the format is "ascii", base64 text otherwise.
   */
  function DataSource(format: string, childText: string, appendedData: string, offset: nat): (r: Result<Source>)
    ensures Match(format, "appended") ==> (r.Ok? <==> offset <= |appendedData|)
    ensures Match(format, "appended") && r.Ok? ==> r.value == Base64(appendedData[offset..])
    ensures !Match(format, "appended") ==> r.Ok?
    ensures !Match(format, "appended") && Match(format, "ascii") ==> r.value == AsciiText(Trim(childText))
    ensures !Match(format, "appended") && !Match(format, "ascii") ==> r.value == Base64(Trim(childText))
  {
    if Match(format, "appended") then
      if offset <= |appendedData| then Ok(Base64(appendedData[offset..]))
      else Err("basic_string_view::substr: offset out of range")
    else if Match(format, "ascii") then Ok(AsciiText(Trim(childText)))
    else Ok(Base64(Trim(childText)))
  }

  // ---------------------------------------------------------------------
  // Base64 lengths (section 4 of RFC 4648) and the compressed layout
  // ---------------------------------------------------------------------

  /**
   * nb_char_needed: the number of base64 characters that encode n values
   * of `size` bytes, 4 * ceil(8 * n * size / 24).
   */
  function NbCharNeeded(n: nat, size: nat): nat
  {
    4 * ((n * size + 2) / 3)
  }

  /** It is the least multiple of 4 whose groups of 4 characters carry 3 bytes each, enough for n * size bytes. */
  lemma NbCharNeededLeast(n: nat, size: nat)
    ensures NbCharNeeded(n, size) % 4 == 0
    ensures 3 * (NbCharNeeded(n, size) / 4) >= n * size
    ensures NbCharNeeded(n, size) >= 4 ==> 3 * (NbCharNeeded(n, size) / 4 - 1) < n * size
  {
  }

  /**
   * With 4- or 8-byte header words, 3 words take a whole number of base64
   * groups, so the data offset nb_char_needed(3 + nb) of the current
   * reader is the fixed header followed by the optional one.
   */
  lemma DataOffsetSplits(nbBlocks: nat, size: nat)
    requires size == 4 || size == 8
    ensures NbCharNeeded(3 + nbBlocks, size) == NbCharNeeded(3, size) + NbCharNeeded(nbBlocks, size)
    ensures NbCharNeeded(3, size) == 4 * size
  {
    var k := nbBlocks * size;
    assert (3 + nbBlocks) * size == 3 * size + k;
    assert (3 * size + k + 2) / 3 == size + (k + 2) / 3;
  }

  /** The fixed header holds 3 words: 16 characters for UInt32, 32 for UInt64. */
  lemma FixedHeaderLengths()
    ensures NbCharNeeded(3, 4) == 16 && NbCharNeeded(3, 8) == 32
    ensures NbCharNeeded(1, 4) == 8 && NbCharNeeded(1, 8) == 12
  {
  }

  /** The sum of the first k compressed block sizes. */
  function SumTo(sizes: seq<nat>, k: nat): nat
    requires k <= |sizes|
  {
    if k == 0 then 0 else SumTo(sizes, k - 1) + sizes[k - 1]
  }

  lemma {:induction false} SumToMonotone(sizes: seq<nat>, j: nat, k: nat)
    requires j <= k <= |sizes|
    ensures SumTo(sizes, j) <= SumTo(sizes, k)
    decreases k - j
  {
    if j < k {
      SumToMonotone(sizes, j, k - 1);
    }
  }

  /** The first loop of templated_decode: the total of the compressed block sizes. */
  method BlockTotal(sizes: seq<nat>) returns (total: nat)
    ensures total == SumTo(sizes, |sizes|)
  {
    total := 0;
    for b := 0 to |sizes|
      invariant total == SumTo(sizes, b)
    {
      total := total + sizes[b];
    }
  }

  /** Where the first k blocks start in the decoded data: the running `cur_data_offset`. */
  function RunningStarts(sizes: seq<nat>, k: nat): (r: seq<nat>)
    requires k <= |sizes|
    ensures |r| == k
  {
    if k == 0 then [] else RunningStarts(sizes, k - 1) + [SumTo(sizes, k - 1)]
  }

  /** Block b starts at the sum of the sizes before it and ends within the total. */
  lemma {:induction false} RunningStartsAt(sizes: seq<nat>, k: nat, b: nat)
    requires b < k <= |sizes|
    ensures RunningStarts(sizes, k)[b] == SumTo(sizes, b)
    ensures RunningStarts(sizes, k)[b] + sizes[b] <= SumTo(sizes, |sizes|)
    decreases k
  {
    if b < k - 1 {
      RunningStartsAt(sizes, k - 1, b);
    }
    SumToMonotone(sizes, b + 1, |sizes|);
  }

  /** std::string_view::substr(pos, count): throws past the end, clamps the count. */
  function Substr(s: string, pos: nat, count: nat): (r: Result<string>)
    ensures r.Ok? <==> pos <= |s|
    ensures r.Ok? ==> r.value == s[pos..pos + Min(count, |s| - pos)]
  {
    if pos > |s| then Err("basic_string_view::substr: offset out of range")
    else if pos + count <= |s| then Ok(s[pos..pos + count])
    else Ok(s[pos..])
  }

  /**
   * The foreign decoders: base64 text to header words (absl::Base64Unescape
   * then reading UInt words), base64 text to the compressed bytes, and one
   * zlib block (bytes, start, compressed length, uncompressed size) to values.
   */
  datatype Decoders = Decoders(
    words: string -> Option<seq<nat>>,
    bytes: string -> Option<seq<nat>>,
    inflate: (seq<nat>, nat, nat, nat) -> Option<seq<int>>)

  /** The fixed header: the first nb_char_needed(3) characters (fewer if the input is shorter). */
  function FixedHeader(input: string, size: nat): string
  {
    input[..Min(NbCharNeeded(3, size), |input|)]
  }

  /** The block count: the first word of the fixed header. */
  function BlockCount(input: string, size: nat, d: Decoders): Option<nat>
  {
    var w := d.words(FixedHeader(input, size));
    if w.Some? && |w.value| >= 3 then Some(w.value[0]) else None
  }

  /** The compressed block sizes: the optional header after the fixed one, one word per block. */
  function BlockSizes(input: string, size: nat, d: Decoders, nbBlocks: nat): Option<seq<nat>>
  {
    var h := Substr(input, NbCharNeeded(3, size), NbCharNeeded(nbBlocks, size));
    if h.Err? then None
    else
      var w := d.words(h.value);
      if w.Some? && |w.value| >= nbBlocks then Some(w.value[..nbBlocks]) else None
  }

  /**
   * templated_decode (current reader) on compressed data with `size`-byte
   * header words: zero blocks decode to nothing; otherwise the compressed
   * data starts right after both headers, at nb_char_needed(3 + nb), and
   * block b is inflated from the sum of the earlier compressed sizes, the
   * blocks' values concatenated in order. `starts` lists the offsets
   * handed to the inflater.
   */
  method DecodeCompressed(input: string, size: nat, d: Decoders) returns (r: Result<seq<int>>, starts: seq<nat>, dataOffset: nat)
    requires size == 4 || size == 8
    ensures r.Ok? ==> BlockCount(input, size, d).Some?
    ensures BlockCount(input, size, d) == Some(0) ==> r == Ok([]) && starts == []
    ensures r.Ok? && BlockCount(input, size, d).value > 0 ==>
      BlockSizes(input, size, d, BlockCount(input, size, d).value).Some? &&
      |starts| == BlockCount(input, size, d).value &&
      dataOffset == NbCharNeeded(3, size) + NbCharNeeded(|starts|, size)
    ensures starts != [] ==> (BlockCount(input, size, d).Some? &&
      var sizes := BlockSizes(input, size, d, BlockCount(input, size, d).value);
      sizes.Some? && |starts| <= |sizes.value| && starts == RunningStarts(sizes.value, |starts|))
  {
    starts, dataOffset := [], 0;
    var count := BlockCount(input, size, d);
    if count.None? {
      return Err(BASE64_ERROR), starts, dataOffset;
    }
    var nbBlocks := count.value;
    if nbBlocks == 0 {
      return Ok([]), starts, dataOffset;
    }
    var blockSize := d.words(FixedHeader(input, size)).value[1];
    var sizes := BlockSizes(input, size, d, nbBlocks);
    if sizes.None? {
      return Err(BASE64_ERROR), starts, dataOffset;
    }
    var total := BlockTotal(sizes.value);
    DataOffsetSplits(nbBlocks, size);
    dataOffset := NbCharNeeded(3 + nbBlocks, size);
    var data := Substr(input, dataOffset, (total * 4 + 2) / 3);
    if data.Err? {
      return Err(data.message), starts, dataOffset;
    }
    var bytes := d.bytes(data.value);
    if bytes.None? {
      return Err(BASE64_ERROR), starts, dataOffset;
    }
    var result: seq<int> := [];
    var cur := 0;
    for b := 0 to nbBlocks
      invariant starts == RunningStarts(sizes.value, b) && cur == SumTo(sizes.value, b)
    {
      var values := d.inflate(bytes.value, cur, total, blockSize);
      if values.None? {
        return Err(ZLIB_ERROR), starts, dataOffset;
      }
      result := result + values.value;
      starts := starts + [cur];
      cur := cur + sizes.value[b];
    }
    return Ok(result), starts, dataOffset;
  }

  /** Value v after a `size`-byte count word lies within `len` bytes. */
  predicate ChunkFits(len: nat, size: nat, valueSize: nat, v: nat) {
    size + (v + 1) * valueSize <= len
  }

  /** The bytes of value v after a `size`-byte count word. */
  function Chunk(bytes: seq<nat>, size: nat, valueSize: nat, v: nat): seq<nat>
    requires ChunkFits(|bytes|, size, valueSize, v)
  {
    bytes[size + v * valueSize..size + (v + 1) * valueSize]
  }

  lemma ChunksFit(len: nat, size: nat, valueSize: nat, v: nat)
    requires valueSize > 0 && size <= len && v < (len - size) / valueSize
    ensures ChunkFits(len, size, valueSize, v)
  {
    var n := (len - size) / valueSize;
    assert n * valueSize <= len - size;
    assert (v + 1) * valueSize <= n * valueSize by {
      assert v + 1 <= n;
    }
  }

  /**
   * The values that follow the leading byte-count word of uncompressed
   * data: (|bytes| - size) / valueSize values, value v read from its own
   * `valueSize` bytes; data shorter than the word is rejected.
   */
  method ValuesAfterCount(bytes: seq<nat>, size: nat, valueSize: nat, value: seq<nat> -> int)
    returns (r: Result<seq<int>>)
    requires valueSize > 0
    ensures r.Ok? <==> size <= |bytes|
    ensures r.Ok? ==> |r.value| == (|bytes| - size) / valueSize
    ensures r.Ok? ==> forall v | 0 <= v < |r.value| ::
      ChunkFits(|bytes|, size, valueSize, v) && r.value[v] == value(Chunk(bytes, size, valueSize, v))
  {
    if |bytes| < size {
      return Err(SHORT_DATA_ERROR);
    }
    var nbValues := (|bytes| - size) / valueSize;
    var result: seq<int> := [];
    for v := 0 to nbValues
      invariant |result| == v
      invariant forall q | 0 <= q < v ::
        ChunkFits(|bytes|, size, valueSize, q) && result[q] == value(Chunk(bytes, size, valueSize, q))
    {
      ChunksFit(|bytes|, size, valueSize, v);
      result := result + [value(Chunk(bytes, size, valueSize, v))];
    }
    return Ok(result);
  }

  /**
   * templated_decode_uncompressed (current reader): the first
   * nb_char_needed(1) characters give the byte count n; the first
   * nb_char_needed(1) + nb_char_needed(n / valueSize) characters are
   * decoded and the values after the count word are kept; the second
   * character count is taken for values of the value type, so it counts
   * valueSize bytes per value.
   */
  method DecodeUncompressed(input: string, size: nat, valueSize: nat, d: Decoders, value: seq<nat> -> int)
    returns (r: Result<seq<int>>)
    requires valueSize > 0
    ensures r.Ok? ==> d.words(input[..Min(NbCharNeeded(1, size), |input|)]).Some?
    ensures r.Ok? ==>
      var count := d.words(input[..Min(NbCharNeeded(1, size), |input|)]).value;
      |count| > 0 &&
      var n := NbCharNeeded(1, size) + NbCharNeeded(count[0] / valueSize, valueSize);
      var bytes := d.bytes(input[..Min(n, |input|)]);
      bytes.Some? && size <= |bytes.value| && |r.value| == (|bytes.value| - size) / valueSize &&
      forall v | 0 <= v < |r.value| ::
        ChunkFits(|bytes.value|, size, valueSize, v) && r.value[v] == value(Chunk(bytes.value, size, valueSize, v))
  {
    var nbChars := NbCharNeeded(1, size);
    var count := d.words(input[..Min(nbChars, |input|)]);
    if count.None? || |count.value| == 0 {
      return Err("[VTKInput::decode_base64] Error in decoding base64 data");
    }
    var n := nbChars + NbCharNeeded(count.value[0] / valueSize, valueSize);
    var bytes := d.bytes(input[..Min(n, |input|)]);
    if bytes.None? {
      return Err("[VTKInput::decode_base64] Error in decoding base64 data");
    }
    r := ValuesAfterCount(bytes.value, size, valueSize, value);
  }

  /**
   * templated_decode_uncompressed (older reader): the whole stripped input
   * is decoded and the values after the count word are kept.
   */
  method DecodeUncompressedLegacy(input: string, size: nat, valueSize: nat, d: Decoders, value: seq<nat> -> int)
    returns (r: Result<seq<int>>)
    requires valueSize > 0
    ensures r.Ok? ==> d.bytes(Trim(input)).Some? && size <= |d.bytes(Trim(input)).value|
    ensures r.Ok? ==> |r.value| == (|d.bytes(Trim(input)).value| - size) / valueSize
    ensures r.Ok? ==> forall v | 0 <= v < |r.value| ::
      ChunkFits(|d.bytes(Trim(input)).value|, size, valueSize, v) &&
      r.value[v] == value(Chunk(d.bytes(Trim(input)).value, size, valueSize, v))
  {
    var bytes := d.bytes(Trim(input));
    if bytes.None? {
      return Err(BASE64_UNCOMPRESSED_ERROR);
    }
    r := ValuesAfterCount(bytes.value, size, valueSize, value);
  }

  /**
   * The older reader's layout: a fixed header of 4 * sizeof(UInt)
   * characters, then ceil(nb * 8 * sizeof(UInt) / 24) * 4 characters of
   * optional header; the data offset is the same as the current reader's.
   */
  lemma LegacyLayoutAgrees(nbBlocks: nat, size: nat)
    requires size == 4 || size == 8
    ensures 4 * size + NbCharNeeded(nbBlocks, size) == NbCharNeeded(3 + nbBlocks, size)
  {
    DataOffsetSplits(nbBlocks, size);
  }

  function Min(a: nat, b: nat): nat { if a <= b then a else b }

  // ---------------------------------------------------------------------
  // How an attribute array is stored
  // ---------------------------------------------------------------------

  /** The C++ type an attribute's values are read into. */
  datatype Storage = AsDouble | AsIndex | AsLong | AsByteIndex | Ignored

  /**
   * read_attribute_data's choice, as written: Float64/Float32 as double;
   * Int64/Int32/UInt64 as index_t when RangeMin >= 0 and RangeMax is below
   * the index_t maximum, as long otherwise, where both bounds are read
   * with read_attribute into index_t; Int8 ignored; UInt8 read as bytes
   * and stored as index_t; any other type throws.
   */
  function StorageOf(dataType: string, rangeMin: string, rangeMax: string): (r: Result<Storage>)
    ensures (Match(dataType, "Float64") || Match(dataType, "Float32")) ==> r == Ok(AsDouble)
    ensures !(Match(dataType, "Float64") || Match(dataType, "Float32")) ==>
      (Match(dataType, "Int64") || Match(dataType, "Int32") || Match(dataType, "UInt64")) ==>
      r == IntegerStorage(rangeMin, rangeMax)
  {
    if Match(dataType, "Float64") || Match(dataType, "Float32") then Ok(AsDouble)
    else if Match(dataType, "Int64") || Match(dataType, "Int32") || Match(dataType, "UInt64") then
      IntegerStorage(rangeMin, rangeMax)
    else if Match(dataType, "Int8") then Ok(Ignored)
    else if Match(dataType, "UInt8") then Ok(AsByteIndex)
    else Err(ATTRIBUTE_TYPE_ERROR + dataType + " is not supported")
  }

  /**
   * The integer branch as written: both bounds go through read_attribute,
   * so the `min_value >= 0` test on an unsigned value always holds.
   */
  function IntegerStorage(rangeMin: string, rangeMax: string): (r: Result<Storage>)
    ensures r.Ok? <==> ReadAttribute(rangeMin).Ok? && ReadAttribute(rangeMax).Ok?
    ensures r.Ok? ==> r.value == (if ReadAttribute(rangeMax).value < INDEX_MAX then AsIndex else AsLong)
  {
    match (ReadAttribute(rangeMin), ReadAttribute(rangeMax))
    case (Ok(low), Ok(high)) => Ok(if low >= 0 && high < INDEX_MAX then AsIndex else AsLong)
    case (Err(m), _) => Err(m)
    case (_, Err(m)) => Err(m)
  }

  /**
   * As written, a negative RangeMin makes the read throw instead of
   * selecting long storage, and long storage is chosen only for a RangeMax
   * of exactly the index_t maximum.
   */
  lemma NegativeRangeThrows()
    ensures IntegerStorage("-1", "5").Err?
    ensures IntegerStorage(NatToString(0), NatToString(INDEX_MAX)) == Ok(AsLong)
    ensures forall lo, hi :: IntegerStorage(lo, hi) == Ok(AsLong) ==> ParseNat(hi) == Some(INDEX_MAX)
  {
    assert !AllDigits("-1") by { assert !IsDigit("-1"[0]); }
    NatToStringRoundTrip(0);
    NatToStringRoundTrip(INDEX_MAX);
  }

  /**
   * The integer branch as evidently intended: signed bounds, index_t
   * storage only for values in 0 .. INDEX_MAX - 1, long storage otherwise.
   */
  function IntegerStorageSigned(rangeMin: string, rangeMax: string): (r: Result<Storage>)
    ensures r.Ok? <==> ParseInt(rangeMin).Some? && ParseInt(rangeMax).Some?
    ensures r.Ok? ==> (r.value == AsIndex <==> ParseInt(rangeMin).value >= 0 && ParseInt(rangeMax).value < INDEX_MAX)
  {
    match (ParseInt(rangeMin), ParseInt(rangeMax))
    case (Some(low), Some(high)) => Ok(if low >= 0 && high < INDEX_MAX then AsIndex else AsLong)
    case _ => Err(ATTRIBUTE_ERROR)
  }

  /** With signed bounds a negative RangeMin selects long storage. */
  lemma NegativeRangeIsLong(lo: int, hi: int)
    requires lo < 0
    ensures IntegerStorageSigned(IntToString(lo), IntToString(hi)) == Ok(AsLong)
  {
    IntToStringRoundTrip(lo);
    IntToStringRoundTrip(hi);
  }

  // ---------------------------------------------------------------------
  // cast_to / cast_to_int
  // ---------------------------------------------------------------------

  /** cast_to<index_t>: one value per input value, in order, each narrowed to index_t. */
  method CastToIndex(values: seq<int>) returns (result: seq<nat>)
    ensures |result| == |values|
    ensures forall v | 0 <= v < |values| :: result[v] == VtkCells.ToIndex(values[v])
  {
    result := [];
    for v := 0 to |values|
      invariant |result| == v
      invariant forall q | 0 <= q < v :: result[q] == VtkCells.ToIndex(values[q])
    {
      result := result + [VtkCells.ToIndex(values[v])];
    }
  }

  /** Byte values (as read from a UInt8 array) are kept unchanged. */
  lemma CastBytesUnchanged(values: seq<int>, result: seq<nat>)
    requires forall v | 0 <= v < |values| :: 0 <= values[v] < 256
    requires |result| == |values|
    requires forall v | 0 <= v < |values| :: result[v] == VtkCells.ToIndex(values[v])
    ensures result == values
  {
  }
}
