/**
 * The ascii branch of the VTK XML readers: the element text is stripped
 * (absl::StripAsciiWhitespace), runs of whitespace are collapsed
 * (absl::RemoveExtraAsciiWhitespace), the result is cut at every single
 * space (absl::StrSplit(data, ' ')) and each piece is converted. Also the
 * partner fact: what the ascii writers produce ("v " per value) reads back.
 */
module VtkAscii {
  import opened Wrappers
  import opened Text

  // Messages of the exceptions the reader throws
  const VALUE_ERROR: string := "[VTKINPUT::read_ascii_data_array] Failed to read value"

  // ---------------------------------------------------------------------
  // absl::RemoveExtraAsciiWhitespace and absl::StrSplit on a character
  // ---------------------------------------------------------------------

  /**
   * Of every run of whitespace characters only the last one is kept, as
   * absl::RemoveExtraAsciiWhitespace does on text already stripped.
   */
  function Collapse(s: string): (r: string)
    ensures |r| <= |s|
  {
    if |s| <= 1 then s
    else if IsSpace(s[0]) && IsSpace(s[1]) then Collapse(s[1..])
    else [s[0]] + Collapse(s[1..])
  }

  /** absl::StrSplit(s, sep): the pieces between separators, empty ones included. */
  function SplitOn(s: string, sep: char): (r: seq<string>)
    ensures |r| > 0
  {
    if s == [] then [""]
    else if s[0] == sep then [""] + SplitOn(s[1..], sep)
    else
      var rest := SplitOn(s[1..], sep);
      [[s[0]] + rest[0]] + rest[1..]
  }

  /** The pieces the ascii branch converts one by one. */
  function AsciiTokens(data: string): seq<string>
  {
    SplitOn(Collapse(Trim(data)), ' ')
  }

  // ---------------------------------------------------------------------
  // read_ascii_data_array with absl::SimpleAtoi
  // ---------------------------------------------------------------------

  /**
   * read_ascii_integer_data_array: every piece must convert, otherwise the
   * read throws; the values come out in the order of the pieces.
   */
  method ReadAsciiIntegers(data: string) returns (r: Result<seq<int>>)
    ensures r.Ok? <==> forall k | 0 <= k < |AsciiTokens(data)| :: ParseInt(AsciiTokens(data)[k]).Some?
    ensures r.Ok? ==> |r.value| == |AsciiTokens(data)|
    ensures r.Ok? ==> forall k | 0 <= k < |r.value| :: ParseInt(AsciiTokens(data)[k]) == Some(r.value[k])
  {
    var tokens := AsciiTokens(data);
    var results: seq<int> := [];
    var i := 0;
    while i < |tokens|
      invariant 0 <= i <= |tokens| && |results| == i
      invariant forall k | 0 <= k < i :: ParseInt(tokens[k]) == Some(results[k])
    {
      var value := ParseInt(tokens[i]);
      if value.None? {
        return Err(VALUE_ERROR);
      }
      results := results + [value.value];
      i := i + 1;
    }
    return Ok(results);
  }

  /** Text with no non-space character yields one empty piece, which does not convert. */
  lemma BlankFails(data: string)
    requires AllSpaces(data)
    ensures AsciiTokens(data) == [""]
    ensures ParseInt(AsciiTokens(data)[0]).None?
  {
  }

  // ---------------------------------------------------------------------
  // read_ascii_uint8_data_array with std::atoi
  // ---------------------------------------------------------------------

  /** Length of the run of digits that starts `s`. */
  function DigitRun(s: string): (n: nat)
    ensures n <= |s| && AllDigits(s[..n])
  {
    if s == [] || !IsDigit(s[0]) then 0
    else
      var m := DigitRun(s[1..]);
      assert s[..1 + m] == [s[0]] + s[1..][..m];
      1 + m
  }

  /**
   * std::atoi: leading whitespace is skipped, an optional sign is read,
   * then the longest run of digits; no digits give 0.
   */
  function Atoi(s: string): int
  {
    var t := s[LeadingSpaces(s)..];
    if t != [] && (t[0] == '-' || t[0] == '+') then
      var v: int := DigitsValue(t[1..][..DigitRun(t[1..])]);
      if t[0] == '-' then -v else v
    else DigitsValue(t[..DigitRun(t)])
  }

  /** The int returned by std::atoi stored into a uint8_t (modulo 256). */
  function ToUint8(i: int): (b: nat)
    ensures b < 256 && (0 <= i < 256 ==> b == i)
  {
    i % 256
  }

  /**
   * read_ascii_uint8_data_array: never fails; one value per piece, an
   * unreadable piece giving 0.
   */
  method ReadAsciiUint8(data: string) returns (r: seq<nat>)
    ensures |r| == |AsciiTokens(data)|
    ensures forall k | 0 <= k < |r| :: r[k] == ToUint8(Atoi(AsciiTokens(data)[k])) && r[k] < 256
  {
    var tokens := AsciiTokens(data);
    r := [];
    for i := 0 to |tokens|
      invariant |r| == i
      invariant forall k | 0 <= k < i :: r[k] == ToUint8(Atoi(tokens[k]))
    {
      r := r + [ToUint8(Atoi(tokens[i]))];
    }
  }

  /** The decimal text of a byte value reads back as that value. */
  lemma AtoiOfNat(n: nat)
    ensures Atoi(NatToString(n)) == n
  {
    var s := NatToString(n);
    assert LeadingSpaces(s) == 0 by { assert !IsSpace(s[0]); }
    assert s[0..] == s;
    DigitRunAll(s);
    assert s[..|s|] == s;
    NatToStringRoundTrip(n);
  }

  lemma {:induction false} DigitRunAll(s: string)
    requires AllDigits(s)
    ensures DigitRun(s) == |s|
  {
    if s != [] {
      DigitRunAll(s[1..]);
    }
  }

  // ---------------------------------------------------------------------
  // The writers' side: "v " per value
  // ---------------------------------------------------------------------

  /** Values separated by single spaces, none at the ends. */
  function JoinSep(xs: seq<int>): string
    requires xs != []
  {
    if |xs| == 1 then IntToString(xs[0]) else IntToString(xs[0]) + " " + JoinSep(xs[1..])
  }

  lemma {:induction false} JoinSepEnds(xs: seq<int>)
    requires xs != []
    ensures |JoinSep(xs)| > 0 && !IsSpace(JoinSep(xs)[0]) && !IsSpace(JoinSep(xs)[|JoinSep(xs)| - 1])
  {
    var w := IntToString(xs[0]);
    assert !IsSpace(w[0]) && !IsSpace(w[|w| - 1]);
    if |xs| > 1 {
      JoinSepEnds(xs[1..]);
    }
  }

  lemma {:induction false} JoinIntsSep(xs: seq<int>)
    requires xs != []
    ensures JoinInts(xs) == JoinSep(xs) + " "
  {
    if |xs| == 1 {
      assert xs[1..] == [];
    } else {
      JoinIntsSep(xs[1..]);
    }
  }

  /** Stripping a word-bounded text followed by one space gives the text. */
  lemma TrimSpaceAfter(s: string)
    requires |s| > 0 && !IsSpace(s[0]) && !IsSpace(s[|s| - 1])
    ensures Trim(s + " ") == s
  {
    var t := s + " ";
    assert LeadingSpaces(t) == 0 by { assert !IsSpace(t[0]); }
    assert t[..|t| - 1] == s;
    assert TrailingSpaces(s) == 0;
    assert TrailingSpaces(t) == 1;
    assert t[0..|t| - 1] == s;
  }

  lemma {:induction false} CollapseWord(w: string)
    requires NoSpace(w)
    ensures Collapse(w) == w
  {
    if |w| > 1 {
      CollapseWord(w[1..]);
      assert w == [w[0]] + w[1..];
    }
  }

  /** A word, a space, then text starting with a non-space collapse piecewise. */
  lemma {:induction false} CollapseWordSpace(w: string, rest: string)
    requires IsWord(w) && |rest| > 0 && !IsSpace(rest[0])
    ensures Collapse(w + " " + rest) == w + " " + Collapse(rest)
  {
    var s := w + " " + rest;
    if |w| == 1 {
      assert s[1..] == " " + rest;
      assert (" " + rest)[1..] == rest;
      assert Collapse(" " + rest) == " " + Collapse(rest);
    } else {
      assert s[1..] == w[1..] + " " + rest;
      CollapseWordSpace(w[1..], rest);
      assert w == [w[0]] + w[1..];
    }
  }

  lemma {:induction false} SplitOnWord(w: string, rest: string)
    requires NoSpace(w)
    ensures SplitOn(w + " " + rest, ' ') == [w] + SplitOn(rest, ' ')
  {
    if w == [] {
      assert w + " " + rest == [' '] + rest;
      assert ([' '] + rest)[1..] == rest;
    } else {
      assert (w + " " + rest)[1..] == w[1..] + " " + rest;
      SplitOnWord(w[1..], rest);
      assert w == [w[0]] + w[1..];
    }
  }

  lemma {:induction false} SplitOnSingle(w: string)
    requires NoSpace(w)
    ensures SplitOn(w, ' ') == [w]
  {
    if w != [] {
      SplitOnSingle(w[1..]);
      assert w == [w[0]] + w[1..];
    }
  }

  lemma {:induction false} SepTokens(xs: seq<int>)
    requires xs != []
    ensures Collapse(JoinSep(xs)) == JoinSep(xs)
    ensures SplitOn(JoinSep(xs), ' ') == IntStrings(xs)
  {
    var w := IntToString(xs[0]);
    if |xs| == 1 {
      CollapseWord(w);
      SplitOnSingle(w);
    } else {
      SepTokens(xs[1..]);
      JoinSepEnds(xs[1..]);
      CollapseWordSpace(w, JoinSep(xs[1..]));
      SplitOnWord(w, JoinSep(xs[1..]));
    }
  }

  /**
   * What an ascii writer produced for a non-empty array reads back as the
   * values written; for an empty array it is the one empty piece, which
   * ReadAsciiIntegers rejects.
   */
  lemma WrittenTokens(xs: seq<int>)
    ensures xs != [] ==> AsciiTokens(JoinInts(xs)) == IntStrings(xs)
    ensures xs == [] ==> AsciiTokens(JoinInts(xs)) == [""]
  {
    if xs != [] {
      JoinIntsSep(xs);
      JoinSepEnds(xs);
      TrimSpaceAfter(JoinSep(xs));
      SepTokens(xs);
    }
  }

  /** Each piece of the written text converts back to its value. */
  lemma AsciiIntegersRoundTrip(xs: seq<int>)
    requires xs != []
    ensures |AsciiTokens(JoinInts(xs))| == |xs|
    ensures forall k | 0 <= k < |xs| :: ParseInt(AsciiTokens(JoinInts(xs))[k]) == Some(xs[k])
  {
    WrittenTokens(xs);
    forall k | 0 <= k < |xs|
      ensures ParseInt(IntStrings(xs)[k]) == Some(xs[k])
    {
      ParseIntsAt(xs, k);
    }
  }

  lemma {:induction false} ParseIntsAt(xs: seq<int>, k: nat)
    requires k < |xs|
    ensures ParseInt(IntStrings(xs)[k]) == Some(xs[k])
  {
    if k == 0 {
      IntToStringRoundTrip(xs[0]);
    } else {
      ParseIntsAt(xs[1..], k - 1);
    }
  }
}
