/**
 * Character-level helpers shared by the readers and writers: whitespace
 * tokenizing (what `iss >> token`, `string_split` and absl's splitting
 * yield), decimal formatting of integers (what `std::to_string` and
 * `absl::StrAppend` write) and decimal parsing (`absl::SimpleAtoi`).
 */
module Text {
  import opened Wrappers

  /** Whitespace as `isspace` sees it in the "C" locale. */
  predicate IsSpace(c: char) {
    c == ' ' || c == '\t' || c == '\n' || c == '\r' || c == '\U{000B}' || c == '\U{000C}'
  }

  predicate IsDigit(c: char) { '0' <= c <= '9' }

  predicate NoSpace(w: string) { forall k | 0 <= k < |w| :: !IsSpace(w[k]) }

  /** A token: non-empty and free of whitespace. */
  predicate IsWord(w: string) { |w| > 0 && NoSpace(w) }

  predicate AllDigits(s: string) { forall k | 0 <= k < |s| :: IsDigit(s[k]) }

  predicate AllSpaces(s: string) { forall k | 0 <= k < |s| :: IsSpace(s[k]) }

  /** absl::StartsWith */
  predicate StartsWith(s: string, prefix: string) {
    |prefix| <= |s| && s[..|prefix|] == prefix
  }

  /** absl::EndsWith */
  predicate EndsWith(s: string, suffix: string) {
    |suffix| <= |s| && s[|s| - |suffix|..] == suffix
  }

  // ---------------------------------------------------------------------
  // Whitespace tokenizing
  // ---------------------------------------------------------------------

  /** Length of the run of non-space characters that starts `s`. */
  function WordLength(s: string): (n: nat)
    ensures n <= |s|
    ensures NoSpace(s[..n])
    ensures n < |s| ==> IsSpace(s[n])
    ensures |s| > 0 && !IsSpace(s[0]) ==> n > 0
  {
    if s == [] || IsSpace(s[0]) then 0
    else
      var m := WordLength(s[1..]);
      assert s[..1 + m] == [s[0]] + s[1..][..m];
      1 + m
  }

  /** The whitespace-separated tokens of `s`, in order. */
  function Split(s: string): (r: seq<string>)
    decreases |s|
  {
    if s == [] then []
    else if IsSpace(s[0]) then Split(s[1..])
    else
      var n := WordLength(s);
      [s[..n]] + Split(s[n..])
  }

  /** Every token is a word. */
  lemma {:induction false} SplitWords(s: string)
    ensures forall t | t in Split(s) :: IsWord(t)
    decreases |s|
  {
    if s != [] {
      if IsSpace(s[0]) {
        SplitWords(s[1..]);
      } else {
        SplitWords(s[WordLength(s)..]);
      }
    }
  }

  lemma {:induction false} WordLengthOfWord(w: string, rest: string)
    requires NoSpace(w)
    requires rest == [] || IsSpace(rest[0])
    ensures WordLength(w + rest) == |w|
  {
    if w != [] {
      assert (w + rest)[1..] == w[1..] + rest;
      WordLengthOfWord(w[1..], rest);
    } else {
      assert w + rest == rest;
    }
  }

  /** A word followed by whitespace (or nothing) is one token. */
  lemma SplitWord(w: string, rest: string)
    requires IsWord(w)
    requires rest == [] || IsSpace(rest[0])
    ensures Split(w + rest) == [w] + Split(rest)
  {
    WordLengthOfWord(w, rest);
    assert (w + rest)[..|w|] == w;
    assert (w + rest)[|w|..] == rest;
  }

  /** Leading whitespace produces no token. */
  lemma SplitSpace(c: char, rest: string)
    requires IsSpace(c)
    ensures Split([c] + rest) == Split(rest)
  {
    assert ([c] + rest)[1..] == rest;
  }

  /** Two texts joined by a space tokenize as the tokens of one, then those of the other. */
  lemma {:induction false} SplitJoin(a: string, b: string)
    ensures Split(a + " " + b) == Split(a) + Split(b)
    decreases |a|
  {
    var ab := a + " " + b;
    if a == [] {
      assert ab == [' '] + b;
      SplitSpace(' ', b);
    } else if IsSpace(a[0]) {
      assert ab[1..] == a[1..] + " " + b;
      SplitJoin(a[1..], b);
    } else {
      var n := WordLength(a);
      var w, tail := a[..n], a[n..];
      assert ab == w + (tail + " " + b);
      assert a == w + tail;
      assert tail == [] || IsSpace(tail[0]);
      SplitWord(w, tail + " " + b);
      SplitWord(w, tail);
      SplitJoin(tail, b);
    }
  }

  /** A word on its own is one token. */
  lemma SplitOne(w: string)
    requires IsWord(w)
    ensures Split(w) == [w]
  {
    SplitWord(w, []);
    assert w + [] == w;
  }

  lemma {:induction false} SplitAllSpaces(s: string)
    requires AllSpaces(s)
    ensures Split(s) == []
    decreases |s|
  {
    if s != [] {
      SplitAllSpaces(s[1..]);
    }
  }

  /** Number of whitespace characters that start `s`. */
  function LeadingSpaces(s: string): (n: nat)
    ensures n <= |s|
    ensures AllSpaces(s[..n])
    ensures n < |s| ==> !IsSpace(s[n])
  {
    if s == [] || !IsSpace(s[0]) then 0
    else
      var m := LeadingSpaces(s[1..]);
      assert s[..1 + m] == [s[0]] + s[1..][..m];
      1 + m
  }

  /** Number of whitespace characters that end `s`. */
  function TrailingSpaces(s: string): (n: nat)
    ensures n <= |s|
    ensures AllSpaces(s[|s| - n..])
    ensures n < |s| ==> !IsSpace(s[|s| - 1 - n])
  {
    if s == [] || !IsSpace(s[|s| - 1]) then 0
    else
      var p := s[..|s| - 1];
      var m := TrailingSpaces(p);
      var t, q := s[|s| - 1 - m..], p[|p| - m..];
      assert AllSpaces(t) by {
        forall k | 0 <= k < m ensures IsSpace(t[k]) {
          assert t[k] == q[k];
        }
      }
      1 + m
  }

  /**
   * absl::StripAsciiWhitespace: `s` without its leading and trailing
   * whitespace; what is cut off on either side is whitespace only.
   */
  function Trim(s: string): (r: string)
    ensures r == [] <==> AllSpaces(s)
    ensures r != [] ==> !IsSpace(r[0]) && !IsSpace(r[|r| - 1])
    ensures r != [] ==> r == s[LeadingSpaces(s)..|s| - TrailingSpaces(s)]
  {
    var a := LeadingSpaces(s);
    if a == |s| then
      assert s[..a] == s;
      []
    else
      var t := TrailingSpaces(s);
      assert t < |s| - a;
      assert !AllSpaces(s) by { assert !IsSpace(s[a]); }
      s[a..|s| - t]
  }

  // ---------------------------------------------------------------------
  // Decimal numbers
  // ---------------------------------------------------------------------

  function DigitChar(d: nat): (c: char)
    requires d < 10
    ensures IsDigit(c)
  {
    (('0' as int) + d) as char
  }

  function DigitValue(c: char): nat
    requires IsDigit(c)
  {
    c as int - '0' as int
  }

  /** std::to_string / absl::StrAppend of an unsigned value. */
  function NatToString(n: nat): (s: string)
    ensures |s| > 0 && AllDigits(s) && IsWord(s)
    decreases n
  {
    if n < 10 then [DigitChar(n)] else NatToString(n / 10) + [DigitChar(n % 10)]
  }

  function DigitsValue(s: string): nat
    requires AllDigits(s)
  {
    if s == [] then 0 else 10 * DigitsValue(s[..|s| - 1]) + DigitValue(s[|s| - 1])
  }

  /** absl::SimpleAtoi into an unbounded unsigned value, restricted to digits only (no '+', no surrounding spaces). */
  function ParseNat(s: string): (r: Option<nat>)
    ensures r.Some? <==> |s| > 0 && AllDigits(s)
  {
    if |s| > 0 && AllDigits(s) then Some(DigitsValue(s)) else None
  }

  lemma {:induction false} NatToStringRoundTrip(n: nat)
    ensures ParseNat(NatToString(n)) == Some(n)
    decreases n
  {
    var s := NatToString(n);
    if n >= 10 {
      NatToStringRoundTrip(n / 10);
      assert s[..|s| - 1] == NatToString(n / 10);
      assert DigitsValue(s[..|s| - 1]) == n / 10;
      assert DigitValue(s[|s| - 1]) == n % 10;
      assert DigitsValue(s) == 10 * (n / 10) + n % 10;
    }
  }

  /** Decimal text of a signed value, with a leading '-' when negative. */
  function IntToString(i: int): (s: string)
    ensures IsWord(s)
  {
    if i < 0 then "-" + NatToString(-i) else NatToString(i)
  }

  /** absl::SimpleAtoi into a signed value, restricted to an optional '-' then digits (no '+'). */
  function ParseInt(s: string): (r: Option<int>)
    ensures r.Some? && r.value < 0 ==> |s| > 1 && s[0] == '-'
  {
    if |s| > 1 && s[0] == '-' then
      match ParseNat(s[1..])
      case Some(n) => Some(-(n as int))
      case None => None
    else
      match ParseNat(s)
      case Some(n) => Some(n)
      case None => None
  }

  lemma IntToStringRoundTrip(i: int)
    ensures ParseInt(IntToString(i)) == Some(i)
  {
    if i < 0 {
      NatToStringRoundTrip(-i);
      assert IntToString(i)[1..] == NatToString(-i);
    } else {
      NatToStringRoundTrip(i);
    }
  }

  // ---------------------------------------------------------------------
  // Space-terminated lists, as the ascii writers produce them
  // ---------------------------------------------------------------------

  /** Every value written as decimal text followed by one space. */
  function JoinInts(xs: seq<int>): string
  {
    if xs == [] then "" else IntToString(xs[0]) + " " + JoinInts(xs[1..])
  }

  lemma {:induction false} JoinIntsAppend(xs: seq<int>, x: int)
    ensures JoinInts(xs + [x]) == JoinInts(xs) + IntToString(x) + " "
  {
    if xs == [] {
      assert [x][1..] == [];
    } else {
      var head, t := IntToString(xs[0]) + " ", xs[1..];
      assert (xs + [x])[0] == xs[0] && (xs + [x])[1..] == t + [x];
      assert JoinInts(xs + [x]) == head + JoinInts(t + [x]);
      JoinIntsAppend(t, x);
      assert head + (JoinInts(t) + IntToString(x) + " ") == (head + JoinInts(t)) + IntToString(x) + " ";
    }
  }

  /** The text of each value, one token per value. */
  function IntStrings(xs: seq<int>): (r: seq<string>)
    ensures |r| == |xs|
  {
    if xs == [] then [] else [IntToString(xs[0])] + IntStrings(xs[1..])
  }

  /** Tokenizing what the writer produced gives back one token per value. */
  lemma {:induction false} SplitJoinInts(xs: seq<int>)
    ensures Split(JoinInts(xs)) == IntStrings(xs)
  {
    if xs != [] {
      var w := IntToString(xs[0]);
      var tail := JoinInts(xs[1..]);
      assert JoinInts(xs) == w + ([' '] + tail);
      SplitWord(w, [' '] + tail);
      SplitSpace(' ', tail);
      SplitJoinInts(xs[1..]);
      assert IntStrings(xs) == [w] + IntStrings(xs[1..]);
    }
  }

  /** Parses every token; any token that is not a number fails the whole list. */
  function ParseInts(tokens: seq<string>): (r: Option<seq<int>>)
    ensures r.Some? ==> |r.value| == |tokens|
  {
    if tokens == [] then Some([])
    else
      match (ParseInt(tokens[0]), ParseInts(tokens[1..]))
      case (Some(x), Some(rest)) => Some([x] + rest)
      case _ => None
  }

  lemma {:induction false} ParseIntStrings(xs: seq<int>)
    ensures ParseInts(IntStrings(xs)) == Some(xs)
  {
    if xs != [] {
      IntToStringRoundTrip(xs[0]);
      assert IntStrings(xs)[0] == IntToString(xs[0]);
      assert IntStrings(xs)[1..] == IntStrings(xs[1..]);
      ParseIntStrings(xs[1..]);
      assert xs == [xs[0]] + xs[1..];
    }
  }

  /** An ascii writer's output parses back to the values it was given. */
  lemma AsciiRoundTrip(xs: seq<int>)
    ensures ParseInts(Split(JoinInts(xs))) == Some(xs)
  {
    SplitJoinInts(xs);
    ParseIntStrings(xs);
  }

  // ---------------------------------------------------------------------
  // Space-separated values
  // ---------------------------------------------------------------------

  /** Values written as decimal text with one space between them and none at the end. */
  function Spaced(xs: seq<nat>): string
  {
    if xs == [] then ""
    else if |xs| == 1 then NatToString(xs[0])
    else NatToString(xs[0]) + " " + Spaced(xs[1..])
  }

  function NatStrings(xs: seq<nat>): (r: seq<string>)
    ensures |r| == |xs|
    ensures forall i | 0 <= i < |xs| :: r[i] == NatToString(xs[i])
  {
    seq(|xs|, i requires 0 <= i < |xs| => NatToString(xs[i]))
  }

  /** Tokenizing a space-separated line gives back one token per value. */
  lemma {:induction false} SplitSpaced(xs: seq<nat>)
    ensures Split(Spaced(xs)) == NatStrings(xs)
  {
    if |xs| == 1 {
      SplitWord(NatToString(xs[0]), []);
      assert NatToString(xs[0]) + [] == Spaced(xs);
    } else if |xs| > 1 {
      SplitSpaced(xs[1..]);
      SplitSpacedCons(xs);
    }
  }

  /** The first value, a space, then the others: its token, then theirs. */
  lemma {:induction false} SplitSpacedCons(xs: seq<nat>)
    requires |xs| > 1 && Split(Spaced(xs[1..])) == NatStrings(xs[1..])
    ensures Split(Spaced(xs)) == NatStrings(xs)
  {
    var w := NatToString(xs[0]);
    var tail := Spaced(xs[1..]);
    assert Spaced(xs) == w + ([' '] + tail);
    SplitWord(w, [' '] + tail);
    SplitSpace(' ', tail);
    NatStringsCons(xs);
  }

  lemma NatStringsCons(xs: seq<nat>)
    requires xs != []
    ensures NatStrings(xs) == [NatToString(xs[0])] + NatStrings(xs[1..])
  {
  }

  // ---------------------------------------------------------------------
  // Words joined by single spaces
  // ---------------------------------------------------------------------

  predicate AllWords(ws: seq<string>) { forall k | 0 <= k < |ws| :: IsWord(ws[k]) }

  /** Words with one space between them and none at the end. */
  function JoinWords(ws: seq<string>): string
  {
    if ws == [] then ""
    else if |ws| == 1 then ws[0]
    else JoinWords(ws[..|ws| - 1]) + " " + ws[|ws| - 1]
  }

  lemma JoinWordsAppend(ws: seq<string>, w: string)
    requires ws != []
    ensures JoinWords(ws + [w]) == JoinWords(ws) + " " + w
  {
    assert (ws + [w])[..|ws|] == ws;
  }

  /** Appending a non-empty run of words: a separating space when there was text before. */
  lemma {:induction false} JoinWordsConcat(a: seq<string>, b: seq<string>)
    requires b != []
    ensures JoinWords(a + b) == JoinWords(a) + (if a == [] then "" else " ") + JoinWords(b)
    decreases |b|
  {
    if |b| == 1 {
      if a != [] {
        JoinWordsAppend(a, b[0]);
      } else {
        assert a + b == b;
      }
    } else {
      var init, x := b[..|b| - 1], b[|b| - 1];
      var sep := if a == [] then "" else " ";
      assert b == init + [x];
      assert a + b == (a + init) + [x];
      JoinWordsAppend(a + init, x);
      JoinWordsConcat(a, init);
      JoinWordsAppend(init, x);
      var left, middle := JoinWords(a), JoinWords(init);
      assert JoinWords(a + b) == left + sep + middle + " " + x;
      assert JoinWords(b) == middle + " " + x;
      assert left + sep + middle + " " + x == left + sep + (middle + " " + x);
    }
  }

  /** Tokenizing words joined by spaces gives the words back. */
  lemma {:induction false} SplitJoinWords(ws: seq<string>)
    requires AllWords(ws)
    ensures Split(JoinWords(ws)) == ws
    decreases |ws|
  {
    if |ws| == 1 {
      SplitOne(ws[0]);
    } else if |ws| > 1 {
      var init, x := ws[..|ws| - 1], ws[|ws| - 1];
      SplitJoinWords(init);
      SplitJoin(JoinWords(init), x);
      SplitOne(x);
      assert init + [x] == ws;
    }
  }
}
