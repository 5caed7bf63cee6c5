/**
 * The standalone VTP reader for polygonal surfaces (src/geode/io/mesh/
 * vtp_input.cpp): the root checks, the hand-written whitespace trimming,
 * the ascii arrays read with an istringstream, the single-block zlib
 * decoding and the pieces appended to the surface. XML parsing, base64,
 * zlib and the conversion of a coordinate text to a double are foreign
 * and are parameters.
 */
module VtpInput {
  import opened Wrappers
  import opened Text
  import VtkAscii
  import VtkCells
  import VtkInput
  import VtkMeshInput

  // Messages of the exceptions the reader throws
  const VTP_COMPRESSOR_ERROR: string := "[VTPInput] Only vtkZLibDataCompressor is supported for now"
  const VTP_DIMENSION_ERROR: string := "[VTPInput] Trying to import 2D VTK PolyData into a 3D Surface is not allowed"
  const VTP_FILE_TYPE_ERROR: string := "[VTPInput] VTK File type should be PolyData"

  // ---------------------------------------------------------------------
  // std::stoul
  // ---------------------------------------------------------------------

  /** unsigned long is 64 bits wide. */
  const ULONG_MODULUS: nat := 0x1_0000_0000_0000_0000

  /** Where the run of digits that starts at position i ends. */
  function DigitEnd(s: string, i: nat): (j: nat)
    requires i <= |s|
    ensures i <= j <= |s|
    decreases |s| - i
  {
    if i < |s| && IsDigit(s[i]) then DigitEnd(s, i + 1) else i
  }

  /** The decimal value of the digits s[i..j]. */
  function ValueOf(s: string, i: nat, j: nat): nat
    requires i <= j <= |s|
    decreases j - i
  {
    if j == i then 0 else 10 * ValueOf(s, i, j - 1) + (if IsDigit(s[j - 1]) then DigitValue(s[j - 1]) else 0)
  }

  /**
   * std::stoul in base 10: leading whitespace, an optional sign, then the
   * longest run of digits, which must not be empty and must fit in an
   * unsigned long; a minus sign negates modulo 2^64. Anything after the
   * digits is ignored.
   */
  function Stoul(s: string): (r: Result<nat>)
    ensures r.Ok? ==> r.value < ULONG_MODULUS
  {
    var i := LeadingSpaces(s);
    var sign := if i < |s| && (s[i] == '-' || s[i] == '+') then 1 else 0;
    var j := DigitEnd(s, i + sign);
    if j == i + sign then Err("stoul")
    else
      var v := ValueOf(s, i + sign, j);
      if v >= ULONG_MODULUS then Err("stoul")
      else if sign == 1 && s[i] == '-' then Ok((ULONG_MODULUS - v) % ULONG_MODULUS)
      else Ok(v)
  }

  lemma {:induction false} DigitEndAll(s: string, i: nat)
    requires i <= |s| && AllDigits(s)
    ensures DigitEnd(s, i) == |s|
    decreases |s| - i
  {
    if i < |s| {
      DigitEndAll(s, i + 1);
    }
  }

  lemma {:induction false} ValueOfDigits(s: string, j: nat)
    requires j <= |s| && AllDigits(s)
    ensures ValueOf(s, 0, j) == DigitsValue(s[..j])
  {
    if j > 0 {
      ValueOfDigits(s, j - 1);
      assert s[..j][..j - 1] == s[..j - 1];
    }
  }

  /** A plain decimal number that fits reads as itself. */
  lemma StoulOfDecimal(s: string)
    requires ParseNat(s).Some? && ParseNat(s).value < ULONG_MODULUS
    ensures Stoul(s) == Ok(ParseNat(s).value)
  {
    assert LeadingSpaces(s) == 0 by { assert !IsSpace(s[0]); }
    DigitEndAll(s, 0);
    ValueOfDigits(s, |s|);
    assert s[..|s|] == s;
  }

  /** "-1" reads as the largest unsigned long, which narrowed to index_t is NO_ID. */
  lemma StoulMinusOne()
    ensures Stoul("-1") == Ok(ULONG_MODULUS - 1)
    ensures VtkCells.ToIndex(ULONG_MODULUS - 1) == VtkCells.INDEX_MODULUS - 1
  {
    var t := "-1";
    assert LeadingSpaces(t) == 0;
    assert DigitEnd(t, 1) == 2;
    assert ValueOf(t, 1, 2) == 1;
  }

  /** A token with no digit after its sign is refused. */
  lemma StoulRefusesWords()
    ensures Stoul("abc").Err? && Stoul("").Err? && Stoul("-").Err?
  {
    assert LeadingSpaces("abc") == 0;
    assert LeadingSpaces("-") == 0;
  }

  // ---------------------------------------------------------------------
  // `iss >> c` into a std::string
  // ---------------------------------------------------------------------

  /** Past the whitespace that starts at position i. */
  function SkipSpaces(s: string, i: nat): (j: nat)
    requires i <= |s|
    ensures i <= j <= |s|
    ensures j < |s| ==> !IsSpace(s[j])
    decreases |s| - i
  {
    if i == |s| || !IsSpace(s[i]) then i else SkipSpaces(s, i + 1)
  }

  /** The end of the word that starts at position i: the next whitespace, or the end. */
  function WordEnd(s: string, i: nat): (j: nat)
    requires i <= |s|
    ensures i <= j <= |s|
    ensures forall k | i <= k < j :: !IsSpace(s[k])
    ensures j < |s| ==> IsSpace(s[j])
    decreases |s| - i
  {
    if i == |s| || IsSpace(s[i]) then i else WordEnd(s, i + 1)
  }

  /**
   * One extraction from the stream positioned at pos: whitespace is
   * skipped, then the token runs to the next whitespace or to the end.
   * Returns where the token starts and ends; the token is empty when no
   * text is left, and the extraction sets eof when the token ends at the
   * end of the text.
   */
  function Extract(s: string, pos: nat): (r: (nat, nat))
    requires pos <= |s|
    ensures pos <= r.0 <= r.1 <= |s|
    ensures r.0 < |s| ==> r.0 < r.1 && IsWord(s[r.0..r.1])
  {
    var a := SkipSpaces(s, pos);
    var b := WordEnd(s, a);
    assert a < |s| ==> forall k | 0 <= k < b - a :: s[a..b][k] == s[a + k];
    (a, b)
  }

  /** The whitespace-separated tokens from position i on, read by position. */
  function Tokens(s: string, i: nat): seq<string>
    requires i <= |s|
    decreases |s| - i
  {
    if i == |s| then []
    else if IsSpace(s[i]) then Tokens(s, i + 1)
    else [s[i..WordEnd(s, i)]] + Tokens(s, WordEnd(s, i))
  }

  /**
   * The tokens the `iss >> c; while( !iss.eof() ) { ...; iss >> c; }`
   * loops hand on from position i: an extraction that reaches the end of
   * the text sets eof, so its token is not used.
   */
  function EofTokens(s: string, i: nat): seq<string>
    requires i <= |s|
    decreases |s| - i
  {
    if i == |s| then []
    else if IsSpace(s[i]) then EofTokens(s, i + 1)
    else if WordEnd(s, i) == |s| then []
    else [s[i..WordEnd(s, i)]] + EofTokens(s, WordEnd(s, i))
  }

  /** What one extraction does to the tokens still to come, for both loops. */
  lemma {:induction false} ExtractTokens(s: string, pos: nat)
    requires pos <= |s|
    ensures Extract(s, pos).0 == |s| ==> Tokens(s, pos) == [] && EofTokens(s, pos) == []
    ensures Extract(s, pos).0 < |s| ==>
      Tokens(s, pos) == [s[Extract(s, pos).0..Extract(s, pos).1]] + Tokens(s, Extract(s, pos).1)
    ensures Extract(s, pos).1 == |s| ==> EofTokens(s, pos) == []
    ensures Extract(s, pos).1 < |s| ==>
      EofTokens(s, pos) == [s[Extract(s, pos).0..Extract(s, pos).1]] + EofTokens(s, Extract(s, pos).1)
    decreases |s| - pos
  {
    if pos < |s| && IsSpace(s[pos]) {
      ExtractTokens(s, pos + 1);
      assert Extract(s, pos) == Extract(s, pos + 1);
    }
  }

  /** The tokens read by position are the whitespace-separated tokens of the rest of the text. */
  lemma {:induction false} TokensSplit(s: string, i: nat)
    requires i <= |s|
    ensures Tokens(s, i) == Split(s[i..])
    decreases |s| - i
  {
    if i < |s| {
      var t := s[i..];
      assert t[0] == s[i] && t[1..] == s[i + 1..];
      if IsSpace(s[i]) {
        TokensSplit(s, i + 1);
      } else {
        var j := WordEnd(s, i);
        WordEndLength(s, i);
        TokensSplit(s, j);
        assert t[..j - i] == s[i..j] && t[j - i..] == s[j..];
      }
    }
  }

  lemma {:induction false} WordEndLength(s: string, i: nat)
    requires i <= |s|
    ensures WordLength(s[i..]) == WordEnd(s, i) - i
    decreases |s| - i
  {
    if i < |s| && !IsSpace(s[i]) {
      WordEndLength(s, i + 1);
      assert s[i..][1..] == s[i + 1..];
    }
  }

  /**
   * The eof loop keeps every token when the text ends with whitespace (or
   * nothing is left to read) and drops the last one otherwise.
   */
  predicate EofRelation(s: string, i: nat)
    requires i <= |s|
  {
    (i == |s| || IsSpace(s[|s| - 1]) ==> EofTokens(s, i) == Tokens(s, i)) &&
    (i < |s| && !IsSpace(s[|s| - 1]) ==> Tokens(s, i) != [] && EofTokens(s, i) == Tokens(s, i)[..|Tokens(s, i)| - 1])
  }

  lemma {:induction false} EofTokensDropLast(s: string, i: nat)
    requires i <= |s|
    ensures EofRelation(s, i)
    decreases |s| - i
  {
    if i < |s| {
      if IsSpace(s[i]) {
        EofTokensDropLast(s, i + 1);
      } else {
        var j := WordEnd(s, i);
        EofTokensDropLast(s, j);
        if j < |s| && !IsSpace(s[|s| - 1]) {
          var k := |Tokens(s, j)|;
          assert ([s[i..j]] + Tokens(s, j))[..k + 1 - 1] == [s[i..j]] + Tokens(s, j)[..k - 1];
        }
      }
    }
  }

  /**
   * The whole text: the eof loop hands on every token of Split when the
   * text ends with whitespace (or is empty) and all but the last otherwise.
   */
  lemma EofTokensSplit(s: string)
    ensures s == [] || IsSpace(s[|s| - 1]) ==> EofTokens(s, 0) == Split(s)
    ensures s != [] && !IsSpace(s[|s| - 1]) ==> Split(s) != [] && EofTokens(s, 0) == Split(s)[..|Split(s)| - 1]
  {
    EofTokensDropLast(s, 0);
    TokensSplit(s, 0);
    assert s[0..] == s;
  }

  /** Texts written "v " per value end in a space, so the eof loop sees every value. */
  lemma EofTokensOfWritten(xs: seq<int>)
    ensures EofTokens(JoinInts(xs), 0) == IntStrings(xs)
  {
    SplitJoinInts(xs);
    if xs != [] {
      VtkAscii.JoinIntsSep(xs);
      var s := JoinInts(xs);
      assert s[|s| - 1] == ' ';
    }
    EofTokensSplit(JoinInts(xs));
  }

  /** Finding: "0 1 2" holds three values, and the eof loop hands on only two. */
  lemma FinalTokenDropped()
    ensures Split("0 1 2") == ["0", "1", "2"]
    ensures EofTokens("0 1 2", 0) == ["0", "1"]
  {
    var s := "0 1 2";
    assert WordEnd(s, 4) == 5 && WordEnd(s, 2) == 3 && WordEnd(s, 0) == 1;
    assert s[4..5] == "2" && s[2..3] == "1" && s[0..1] == "0";
    assert Tokens(s, 4) == ["2"];
    assert Tokens(s, 2) == ["1", "2"];
    assert Tokens(s, 0) == ["0", "1", "2"];
    TokensSplit(s, 0);
    assert s[0..] == s;
    assert EofTokens(s, 4) == [];
    assert EofTokens(s, 2) == ["1"];
  }
  // ---------------------------------------------------------------------
  // Converting the tokens
  // ---------------------------------------------------------------------

  /** Every token converted in order; the first token that does not convert gives the error. */
  function ConvertAll<T>(tokens: seq<string>, convert: string -> Result<T>): (r: Result<seq<T>>)
    ensures r.Ok? ==> |r.value| == |tokens|
  {
    if tokens == [] then Ok([])
    else match ConvertAll(tokens[..|tokens| - 1], convert)
      case Err(m) => Err(m)
      case Ok(values) =>
        match convert(tokens[|tokens| - 1])
        case Err(m) => Err(m)
        case Ok(v) => Ok(values + [v])
  }

  /** The conversion succeeds exactly when every token converts, and value k is token k's. */
  lemma {:induction false} ConvertAllValues<T>(tokens: seq<string>, convert: string -> Result<T>)
    ensures ConvertAll(tokens, convert).Ok? <==> forall k | 0 <= k < |tokens| :: convert(tokens[k]).Ok?
    ensures ConvertAll(tokens, convert).Ok? ==>
      forall k | 0 <= k < |tokens| :: convert(tokens[k]) == Ok(ConvertAll(tokens, convert).value[k])
  {
    if tokens != [] {
      var n := |tokens| - 1;
      ConvertAllValues(tokens[..n], convert);
      assert forall k | 0 <= k < n :: tokens[..n][k] == tokens[k];
    }
  }

  /** A failing prefix fails the whole conversion with its error. */
  lemma {:induction false} ConvertAllPrefixErr<T>(tokens: seq<string>, more: seq<string>, convert: string -> Result<T>)
    requires ConvertAll(tokens, convert).Err?
    ensures ConvertAll(tokens + more, convert) == ConvertAll(tokens, convert)
    decreases |more|
  {
    if more != [] {
      var n := |more| - 1;
      ConvertAllPrefixErr(tokens, more[..n], convert);
      assert (tokens + more)[..|tokens + more| - 1] == tokens + more[..n];
    } else {
      assert tokens + more == tokens;
    }
  }

  /** One more token converted. */
  lemma ConvertAllStep<T>(tokens: seq<string>, t: string, convert: string -> Result<T>)
    ensures ConvertAll(tokens + [t], convert) ==
      match ConvertAll(tokens, convert)
      case Err(m) => Err(m)
      case Ok(values) => (match convert(t) case Err(m) => Err(m) case Ok(v) => Ok(values + [v]))
  {
    assert (tokens + [t])[..|tokens|] == tokens;
  }

  /**
   * read_ascii_coordinates and read_ascii_data_array as written: the eof
   * loop; each token it hands on is converted, the first failure throws.
   */
  method ReadAsciiEofLoop<T>(data: string, convert: string -> Result<T>) returns (r: Result<seq<T>>)
    ensures r == ConvertAll(EofTokens(data, 0), convert)
  {
    var values: seq<T> := [];
    ghost var seen: seq<string> := [];
    var pos := 0;
    var e := Extract(data, pos);
    while e.1 != |data|
      invariant pos <= |data| && e == Extract(data, pos)
      invariant seen + EofTokens(data, pos) == EofTokens(data, 0)
      invariant ConvertAll(seen, convert) == Ok(values)
      decreases |data| - pos
    {
      var token := data[e.0..e.1];
      ExtractTokens(data, pos);
      Advance(EofTokens(data, 0), seen, token, EofTokens(data, e.1), EofTokens(data, pos));
      ConvertAllStep(seen, token, convert);
      var v := convert(token);
      if v.Err? {
        ConvertAllPrefixErr(seen + [token], EofTokens(data, e.1), convert);
        return Err(v.message);
      }
      values := values + [v.value];
      seen := seen + [token];
      pos := e.1;
      e := Extract(data, pos);
    }
    ExtractTokens(data, pos);
    assert seen + [] == seen;
    return Ok(values);
  }

  /** A token handed on moves from the tokens to come to the tokens seen. */
  lemma Advance(all: seq<string>, seen: seq<string>, token: string, later: seq<string>, now: seq<string>)
    requires now == [token] + later && seen + now == all
    ensures (seen + [token]) + later == all
  {
  }

  /**
   * The corrected loop, `while( iss >> c )`: it stops only when no token is
   * left, so every whitespace-separated token is converted.
   */
  method ReadAsciiTokens<T>(data: string, convert: string -> Result<T>) returns (r: Result<seq<T>>)
    ensures r == ConvertAll(Split(data), convert)
  {
    TokensSplit(data, 0);
    assert data[0..] == data;
    var values: seq<T> := [];
    ghost var seen: seq<string> := [];
    var pos := 0;
    var e := Extract(data, pos);
    while e.0 != |data|
      invariant pos <= |data| && e == Extract(data, pos)
      invariant seen + Tokens(data, pos) == Tokens(data, 0)
      invariant ConvertAll(seen, convert) == Ok(values)
      decreases |data| - pos
    {
      var token := data[e.0..e.1];
      ExtractTokens(data, pos);
      Advance(Tokens(data, 0), seen, token, Tokens(data, e.1), Tokens(data, pos));
      ConvertAllStep(seen, token, convert);
      var v := convert(token);
      if v.Err? {
        ConvertAllPrefixErr(seen + [token], Tokens(data, e.1), convert);
        return Err(v.message);
      }
      values := values + [v.value];
      seen := seen + [token];
      pos := e.1;
      e := Extract(data, pos);
    }
    ExtractTokens(data, pos);
    assert seen + [] == seen;
    return Ok(values);
  }

  /** The two loops agree whenever the text ends with whitespace, as the writers' texts do. */
  lemma LoopsAgreeOnTerminatedText<T>(data: string, convert: string -> Result<T>)
    requires data == [] || IsSpace(data[|data| - 1])
    ensures ConvertAll(EofTokens(data, 0), convert) == ConvertAll(Split(data), convert)
  {
    EofTokensSplit(data);
  }

  /** read_data_array's conversion of one ascii token: std::stoul, stored as an index_t. */
  function IndexOfToken(token: string): (r: Result<nat>)
    ensures r.Ok? ==> r.value < VtkCells.INDEX_MODULUS
  {
    match Stoul(token)
    case Err(m) => Err(m)
    case Ok(v) => Ok(VtkCells.ToIndex(v))
  }

  /** The index arrays written "v " per value read back whole with the corrected loop. */
  lemma IndicesRoundTrip(xs: seq<nat>)
    requires forall k | 0 <= k < |xs| :: xs[k] < VtkCells.INDEX_MODULUS
    ensures ConvertAll(Split(JoinInts(xs)), IndexOfToken) == Ok(xs)
  {
    SplitJoinInts(xs);
    var tokens := IntStrings(xs);
    forall k | 0 <= k < |xs|
      ensures IndexOfToken(tokens[k]) == Ok(xs[k])
    {
      IntStringsAt(xs, k);
      NatToStringRoundTrip(xs[k]);
      StoulOfDecimal(NatToString(xs[k]));
    }
    ConvertAllValues(tokens, IndexOfToken);
    var r := ConvertAll(tokens, IndexOfToken);
    assert r.value == xs;
  }

  lemma {:induction false} IntStringsAt(xs: seq<nat>, k: nat)
    requires k < |xs|
    ensures IntStrings(xs)[k] == NatToString(xs[k])
  {
    if k > 0 {
      IntStringsAt(xs[1..], k - 1);
    }
  }

  // ---------------------------------------------------------------------
  // remove_spaces and decode
  // ---------------------------------------------------------------------

  /**
   * remove_spaces: a cursor walks forward over the whitespace, another
   * backward; a text of whitespace only gives the empty view. (The
   * forward walk stops at the terminating NUL, which is not whitespace.)
   */
  method RemoveSpaces(s: string) returns (r: string)
    ensures r == Trim(s)
  {
    var left := 0;
    while left < |s| && IsSpace(s[left])
      invariant left <= |s| && AllSpaces(s[..left])
    {
      assert s[..left + 1] == s[..left] + [s[left]];
      left := left + 1;
    }
    if left == |s| {
      assert s[..left] == s;
      return [];
    }
    var right := |s| - 1;
    while IsSpace(s[right]) && right > left
      invariant left <= right < |s| && AllSpaces(s[right + 1..])
    {
      right := right - 1;
    }
    LeadingUnique(s, left);
    TrailingUnique(s, |s| - 1 - right);
    r := s[left..right + 1];
  }

  lemma {:induction false} LeadingUnique(s: string, a: nat)
    requires a < |s| && AllSpaces(s[..a]) && !IsSpace(s[a])
    ensures LeadingSpaces(s) == a
  {
    if a > 0 {
      assert s[1..][..a - 1] == s[1..a];
      LeadingUnique(s[1..], a - 1);
    }
  }

  lemma {:induction false} TrailingUnique(s: string, b: nat)
    requires b < |s| && AllSpaces(s[|s| - b..]) && !IsSpace(s[|s| - 1 - b])
    ensures TrailingSpaces(s) == b
  {
    if b > 0 {
      var p := s[..|s| - 1];
      assert p[|p| - (b - 1)..] == s[|s| - b..|s| - 1];
      assert p[|p| - 1 - (b - 1)] == s[|s| - 1 - b];
      TrailingUnique(p, b - 1);
    }
  }

  /**
   * decode: the trimmed text starts with a 16-character fixed header of
   * 32-bit words (block count, uncompressed block size, last block size);
   * zero blocks give no values and more than one is refused. The one
   * compressed size follows in 8 characters and the data starts at
   * character 24, the places the general reader computes for one block of
   * 32-bit words. The inflater is handed three times the compressed size.
   */
  function Decode(input: string, d: VtkInput.Decoders): (r: Result<seq<int>>)
    ensures var clean := Trim(input);
      var header := d.words(clean[..VtkInput.Min(16, |clean|)]);
      (r.Ok? ==> header.Some? && |header.value| >= 2 && header.value[0] <= 1) &&
      (header.Some? && |header.value| >= 2 && header.value[0] == 0 ==> r == Ok([])) &&
      (header.Some? && |header.value| >= 2 && header.value[0] > 1 ==> r.Err?) &&
      (r.Ok? && header.value[0] == 1 ==> (|clean| >= VtkInput.NbCharNeeded(3 + 1, 4) &&
        var sizes := d.words(clean[VtkInput.NbCharNeeded(3, 4)..VtkInput.NbCharNeeded(3 + 1, 4)]);
        sizes.Some? && |sizes.value| >= 1 &&
        var bytes := d.bytes(clean[VtkInput.NbCharNeeded(3 + 1, 4)..]);
        bytes.Some? && Some(r.value) == d.inflate(bytes.value, 0, 3 * sizes.value[0], header.value[1])))
  {
    var clean := Trim(input);
    var header := d.words(clean[..VtkInput.Min(16, |clean|)]);
    if header.None? || |header.value| < 2 then Err("Pb decode base64 (fixed header)")
    else if header.value[0] == 0 then Ok([])
    else if header.value[0] != 1 then Err("More than one data block to decode is not supported yet")
    else if |clean| < 24 then Err("basic_string_view::substr: offset out of range")
    else
      var sizes := d.words(clean[16..24]);
      if sizes.None? || |sizes.value| < 1 then Err("Pb decode base64 (optional header)")
      else
        var bytes := d.bytes(clean[24..]);
        if bytes.None? then Err("Pb decode base64 (data)")
        else
          match d.inflate(bytes.value, 0, 3 * sizes.value[0], header.value[1])
          case None => Err("Pb zlib")
          case Some(values) => Ok(values)
  }

  // ---------------------------------------------------------------------
  // Points and polygons of a piece
  // ---------------------------------------------------------------------

  /**
   * read_points: NumberOfComponents (read with std::stoul) must be 3; the
   * format "ascii" exactly selects the ascii coordinates, anything else
   * the base64 Float32 data. Ok(true) means ascii.
   */
  function PointsAreAscii(nbComponents: string, format: string): (r: Result<bool>)
    ensures r.Ok? <==> Stoul(nbComponents) == Ok(3)
    ensures r.Ok? ==> (r.value <==> format == "ascii")
  {
    if Stoul(nbComponents) != Ok(3) then
      Err(VTP_DIMENSION_ERROR)
    else Ok(format == "ascii")
  }

  /** The values of the last array of the given name; none when there is no such array. */
  function LastNamed(arrays: seq<(string, seq<nat>)>, name: string): seq<nat>
  {
    if arrays == [] then []
    else if arrays[|arrays| - 1].0 == name then arrays[|arrays| - 1].1
    else LastNamed(arrays[..|arrays| - 1], name)
  }

  /**
   * read_polygons: over the Polys arrays in order, one named exactly
   * "offsets" replaces the offsets read so far and one named
   * "connectivity" the connectivity; other names are skipped.
   */
  method SelectPolygonArrays(arrays: seq<(string, seq<nat>)>) returns (offsets: seq<nat>, connectivity: seq<nat>)
    ensures offsets == LastNamed(arrays, "offsets")
    ensures connectivity == LastNamed(arrays, "connectivity")
  {
    offsets, connectivity := [], [];
    for i := 0 to |arrays|
      invariant offsets == LastNamed(arrays[..i], "offsets")
      invariant connectivity == LastNamed(arrays[..i], "connectivity")
    {
      assert arrays[..i + 1][..i] == arrays[..i];
      if arrays[i].0 == "offsets" {
        offsets := arrays[i].1;
      } else if arrays[i].0 == "connectivity" {
        connectivity := arrays[i].1;
      }
    }
    assert arrays[..|arrays|] == arrays;
  }

  /** A later array of a name wins over an earlier one; other names do not matter. */
  lemma LastNamedWins(arrays: seq<(string, seq<nat>)>, name: string, values: seq<nat>, other: (string, seq<nat>))
    requires other.0 != name
    ensures LastNamed(arrays + [(name, values)], name) == values
    ensures LastNamed(arrays + [other], name) == LastNamed(arrays, name)
  {
    assert (arrays + [other])[..|arrays|] == arrays;
  }

  /** A piece of the file: its two counts as read (see PieceOf) and its already decoded points and polygons. */
  datatype Piece = Piece(numberOfPolys: Result<nat>, numberOfPoints: Result<nat>, points: seq<VtkMeshInput.Point>, polygons: seq<seq<nat>>)

  /** A piece whose NumberOfPolys and NumberOfPoints attribute texts are read with std::stoul. */
  function PieceOf(polysText: string, pointsText: string, points: seq<VtkMeshInput.Point>, polygons: seq<seq<nat>>): (p: Piece)
    ensures p.numberOfPolys == Stoul(polysText) && p.numberOfPoints == Stoul(pointsText)
  {
    Piece(Stoul(polysText), Stoul(pointsText), points, polygons)
  }

  /**
   * What one piece adds: nothing when it has no polygon, otherwise its
   * points and polygons; a count that does not read is the error.
   */
  function PieceAdds(piece: Piece): (r: Result<(seq<VtkMeshInput.Point>, seq<seq<nat>>)>)
    ensures r.Ok? <==> piece.numberOfPolys.Ok? && (piece.numberOfPolys.value == 0 || piece.numberOfPoints.Ok?)
    ensures r.Ok? && piece.numberOfPolys.value == 0 ==> r.value == ([], [])
    ensures r.Ok? && piece.numberOfPolys.value != 0 ==> r.value == (piece.points, piece.polygons)
  {
    match piece.numberOfPolys
    case Err(m) => Err(m)
    case Ok(nb) =>
      if nb == 0 then Ok(([], []))
      else if piece.numberOfPoints.Err? then Err(piece.numberOfPoints.message)
      else Ok((piece.points, piece.polygons))
  }

  /** What the pieces add, in order; the first piece that fails gives the error. */
  function Added(pieces: seq<Piece>): Result<(seq<VtkMeshInput.Point>, seq<seq<nat>>)>
  {
    if pieces == [] then Ok(([], []))
    else match Added(pieces[..|pieces| - 1])
      case Err(m) => Err(m)
      case Ok(before) =>
        match PieceAdds(pieces[|pieces| - 1])
        case Err(m) => Err(m)
        case Ok(more) => Ok((before.0 + more.0, before.1 + more.1))
  }

  /** A file whose pieces all have polygons adds all their points and polygons. */
  lemma {:induction false} AddedAll(pieces: seq<Piece>)
    requires forall i | 0 <= i < |pieces| :: pieces[i].numberOfPolys.Ok? && pieces[i].numberOfPolys.value > 0
    requires forall i | 0 <= i < |pieces| :: pieces[i].numberOfPoints.Ok?
    ensures Added(pieces).Ok?
    ensures |Added(pieces).value.0| == Total(pieces)
  {
    if pieces != [] {
      var n := |pieces| - 1;
      assert forall i | 0 <= i < n :: pieces[..n][i] == pieces[i];
      AddedAll(pieces[..n]);
    }
  }

  /** The number of points of the pieces. */
  function Total(pieces: seq<Piece>): nat
  {
    if pieces == [] then 0 else Total(pieces[..|pieces| - 1]) + |pieces[|pieces| - 1].points|
  }

  /** The reader's state and the surface it fills. */
  class VtpReader {
    var littleEndian: bool
    var compressed: bool
    var points: seq<VtkMeshInput.Point>
    var polygons: seq<seq<nat>>

    constructor ()
      ensures littleEndian && !compressed && points == [] && polygons == []
    {
      littleEndian, compressed := true, false;
      points, polygons := [], [];
    }

    /**
     * read_root_attributes: the type must be exactly "PolyData"; byte order
     * "BigEndian" clears the little-endian flag; the compressor must be
     * absent or exactly "vtkZLibDataCompressor", and a present one sets
     * the compressed flag.
     */
    method ReadRootAttributes(fileType: string, byteOrder: string, compressor: string) returns (r: Outcome)
      modifies this
      ensures r.Pass? <==> fileType == "PolyData" && (compressor == "" || compressor == "vtkZLibDataCompressor")
      ensures littleEndian == (if fileType == "PolyData" && byteOrder == "BigEndian" then false else old(littleEndian))
      ensures compressed == (if r.Pass? && compressor != "" then true else old(compressed))
      ensures points == old(points) && polygons == old(polygons)
    {
      if fileType != "PolyData" {
        return Fail(VTP_FILE_TYPE_ERROR);
      }
      if byteOrder == "BigEndian" {
        littleEndian := false;
      }
      if !(compressor == "" || compressor == "vtkZLibDataCompressor") {
        return Fail(VTP_COMPRESSOR_ERROR);
      }
      if compressor != "" {
        compressed := true;
      }
      return Pass;
    }

    /**
     * build_piece: the piece's points become new vertices after the
     * existing ones; its polygons are created with their vertex ids as
     * read, not moved past the earlier pieces' vertices.
     */
    method BuildPiece(piecePoints: seq<VtkMeshInput.Point>, piecePolygons: seq<seq<nat>>) returns (offset: nat)
      modifies this
      ensures offset == |old(points)|
      ensures points == old(points) + piecePoints
      ensures polygons == old(polygons) + piecePolygons
      ensures littleEndian == old(littleEndian) && compressed == old(compressed)
    {
      offset := |points|;
      points := points + seq(|piecePoints|, _ => VtkMeshInput.ORIGIN);
      for p := 0 to |piecePoints|
        invariant |points| == offset + |piecePoints|
        invariant points[..offset] == old(points)
        invariant points[offset..] == piecePoints[..p] + seq(|piecePoints| - p, _ => VtkMeshInput.ORIGIN)
        invariant polygons == old(polygons)
        invariant littleEndian == old(littleEndian) && compressed == old(compressed)
      {
        points := points[offset + p := piecePoints[p]];
        assert points[offset..] == (piecePoints[..p] + seq(|piecePoints| - p, _ => VtkMeshInput.ORIGIN))[p := piecePoints[p]];
        assert piecePoints[..p + 1] == piecePoints[..p] + [piecePoints[p]];
      }
      assert points == points[..offset] + points[offset..];
      assert piecePoints[..|piecePoints|] == piecePoints;
      for q := 0 to |piecePolygons|
        invariant polygons == old(polygons) + piecePolygons[..q]
        invariant points == old(points) + piecePoints
        invariant littleEndian == old(littleEndian) && compressed == old(compressed)
      {
        polygons := polygons + [piecePolygons[q]];
        assert piecePolygons[..q + 1] == piecePolygons[..q] + [piecePolygons[q]];
      }
      assert piecePolygons[..|piecePolygons|] == piecePolygons;
    }

    /**
     * The body of read_polydata's loop: NumberOfPolys is read first and a
     * piece without polygons is skipped, then NumberOfPoints is read and
     * the piece is built.
     */
    method ReadPiece(piece: Piece) returns (r: Outcome)
      modifies this
      ensures r.Pass? <==> PieceAdds(piece).Ok?
      ensures r.Pass? ==> points == old(points) + PieceAdds(piece).value.0 && polygons == old(polygons) + PieceAdds(piece).value.1
      ensures littleEndian == old(littleEndian) && compressed == old(compressed)
    {
      var nbPolygons := piece.numberOfPolys;
      if nbPolygons.Err? {
        return Fail(nbPolygons.message);
      }
      if nbPolygons.value == 0 {
        assert points == points + [] && polygons == polygons + [];
        return Pass;
      }
      var nbPoints := piece.numberOfPoints;
      if nbPoints.Err? {
        return Fail(nbPoints.message);
      }
      var _ := BuildPiece(piece.points, piece.polygons);
      return Pass;
    }

    /** read_polydata: the pieces in order, each adding to the surface after the ones before it. */
    method ReadPolydata(pieces: seq<Piece>) returns (r: Outcome)
      modifies this
      ensures r.Pass? <==> Added(pieces).Ok?
      ensures r.Pass? ==> points == old(points) + Added(pieces).value.0 && polygons == old(polygons) + Added(pieces).value.1
      ensures littleEndian == old(littleEndian) && compressed == old(compressed)
    {
      ghost var startPoints, startPolygons := points, polygons;
      for i := 0 to |pieces|
        invariant Added(pieces[..i]).Ok?
        invariant points == startPoints + Added(pieces[..i]).value.0
        invariant polygons == startPolygons + Added(pieces[..i]).value.1
        invariant littleEndian == old(littleEndian) && compressed == old(compressed)
      {
        ghost var before := Added(pieces[..i]).value;
        r := ReadPiece(pieces[i]);
        if r.Fail? {
          AddedStep(pieces, i, before);
          AddedPrefixFails(pieces, i + 1);
          return;
        }
        AddedStep(pieces, i, before);
      }
      assert pieces[..|pieces|] == pieces;
      return Pass;
    }
  }

  /** Piece i adds its part to what the pieces before it added. */
  lemma AddedStep(pieces: seq<Piece>, i: nat, before: (seq<VtkMeshInput.Point>, seq<seq<nat>>))
    requires i < |pieces| && Added(pieces[..i]) == Ok(before)
    ensures PieceAdds(pieces[i]).Err? ==> Added(pieces[..i + 1]).Err?
    ensures PieceAdds(pieces[i]).Ok? ==>
      Added(pieces[..i + 1]) == Ok((before.0 + PieceAdds(pieces[i]).value.0, before.1 + PieceAdds(pieces[i]).value.1))
  {
    assert pieces[..i + 1][..i] == pieces[..i];
  }

  /** A failing piece makes every longer run of pieces fail. */
  lemma {:induction false} AddedPrefixFails(pieces: seq<Piece>, k: nat)
    requires 0 < k <= |pieces| && Added(pieces[..k]).Err?
    ensures Added(pieces).Err?
    decreases |pieces| - k
  {
    if k == |pieces| {
      assert pieces[..k] == pieces;
    } else {
      assert pieces[..k + 1][..k] == pieces[..k];
      AddedPrefixFails(pieces, k + 1);
    }
  }
}
