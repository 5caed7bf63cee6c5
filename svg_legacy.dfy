/**
 * The older SVG reader (src/geode/model/svg_input.cpp): it collects the
 * `d` attribute of each path directly under a top-level group, formats each
 * path in place (commas to spaces, command letters to upper case, then
 * spaces around each letter's text) and splits it into tokens, which are
 * only logged: the section is left as it was.
 */
module SvgLegacy {
  import opened Wrappers
  import opened Seqs
  import opened Text
  import SvgPath

  /** `std::replace(path, from, to)`: every `from` character becomes `to`. */
  method ReplaceChar(path: string, from: char, to: char) returns (r: string)
    ensures |r| == |path|
    ensures forall i | 0 <= i < |path| :: r[i] == (if path[i] == from then to else path[i])
  {
    r := path;
    for i := 0 to |r|
      invariant |r| == |path|
      invariant forall k | 0 <= k < i :: r[k] == (if path[k] == from then to else path[k])
      invariant forall k | i <= k < |r| :: r[k] == path[k]
    {
      if r[i] == from {
        r := r[i := to];
      }
    }
  }

  /** `remove_commas`: every comma becomes a space, nothing else changes. */
  method RemoveCommas(path: string) returns (r: string)
    ensures |r| == |path|
    ensures forall i | 0 <= i < |path| :: r[i] == (if path[i] == ',' then ' ' else path[i])
  {
    r := ReplaceChar(path, ',', ' ');
  }

  /** The letters `capitalize_letters` raises, and only those. */
  function Capitalized(c: char): char
  {
    match c
    case 'm' => 'M'
    case 'l' => 'L'
    case 'h' => 'H'
    case 'v' => 'V'
    case 'z' => 'Z'
    case _ => c
  }

  /** `capitalize_letters`: m, l, h, v and z become upper case, nothing else changes. */
  method CapitalizeLetters(path: string) returns (r: string)
    ensures |r| == |path|
    ensures forall i | 0 <= i < |path| :: r[i] == Capitalized(path[i])
  {
    r := ReplaceChar(path, 'm', 'M');
    r := ReplaceChar(r, 'l', 'L');
    r := ReplaceChar(r, 'h', 'H');
    r := ReplaceChar(r, 'v', 'V');
    r := ReplaceChar(r, 'z', 'Z');
  }

  /** Capitalizing leaves no lower-case command letter behind. */
  lemma CapitalizedHasNoLowerCommand(c: char)
    ensures Capitalized(c) !in "mlhvz"
    ensures Capitalized(c) == c || 'a' <= c <= 'z'
  {
  }

  /** `target` occurs in `s` at position `i`. */
  predicate OccursAt(s: string, target: string, i: int)
  {
    0 <= i && i + |target| <= |s| && forall k | 0 <= k < |target| :: s[i + k] == target[k]
  }

  /** An occurrence in a suffix is one in the whole text, shifted. */
  lemma OccursInSuffix(s: string, target: string, start: nat, i: int)
    requires start <= |s|
    ensures 0 <= i ==> (OccursAt(s[start..], target, i) <==> OccursAt(s, target, start + i))
  {
  }

  /** `std::string::find(target, start)`: the first occurrence at or after `start`. */
  function Find(s: string, target: string, start: nat): (r: Option<nat>)
    requires |target| > 0
    ensures r.Some? ==> start <= r.value && OccursAt(s, target, r.value)
    decreases |s| - start
  {
    if start + |target| > |s| then None
    else if OccursAt(s, target, start) then Some(start)
    else Find(s, target, start + 1)
  }

  /** `find` misses nothing: there is no occurrence between `start` and what it returns. */
  lemma {:induction false} FindFirst(s: string, target: string, start: nat)
    requires |target| > 0
    ensures forall i | start <= i && (Find(s, target, start).None? || i < Find(s, target, start).value) :: !OccursAt(s, target, i)
    decreases |s| - start
  {
    if start + |target| <= |s| && !OccursAt(s, target, start) {
      FindFirst(s, target, start + 1);
    }
  }

  /**
   * Every occurrence of `target`, scanning left to right and resuming
   * after each one replaced, becomes `replacement`.
   */
  function ReplacedAll(s: string, target: string, replacement: string): string
    requires |target| > 0
    decreases |s|
  {
    if |s| < |target| then s
    else if OccursAt(s, target, 0) then replacement + ReplacedAll(s[|target|..], target, replacement)
    else [s[0]] + ReplacedAll(s[1..], target, replacement)
  }

  /** A text with no occurrence of the target is left as it is. */
  lemma {:induction false} ReplacedAllNone(s: string, target: string, replacement: string)
    requires |target| > 0
    requires forall i :: !OccursAt(s, target, i)
    ensures ReplacedAll(s, target, replacement) == s
    decreases |s|
  {
    if |s| >= |target| {
      assert !OccursAt(s, target, 0);
      forall i ensures !OccursAt(s[1..], target, i) {
        OccursInSuffix(s, target, 1, i);
      }
      ReplacedAllNone(s[1..], target, replacement);
    }
  }

  /** The first occurrence, at `f > 0`, is the first one after the first character too. */
  lemma FirstInTail(s: string, target: string, f: nat)
    requires 0 < f && OccursAt(s, target, f)
    requires forall i | i < f :: !OccursAt(s, target, i)
    ensures OccursAt(s[1..], target, f - 1)
    ensures forall i | i < f - 1 :: !OccursAt(s[1..], target, i)
  {
    OccursInSuffix(s, target, 1, f - 1);
    forall i | i < f - 1 ensures !OccursAt(s[1..], target, i) {
      OccursInSuffix(s, target, 1, i);
    }
  }

  /**
   * Replacing from the first occurrence on: the text before it is kept,
   * the occurrence is replaced and the scan resumes after it.
   */
  lemma {:induction false} ReplacedAllFirst(s: string, target: string, replacement: string, f: nat)
    requires |target| > 0 && OccursAt(s, target, f)
    requires forall i | i < f :: !OccursAt(s, target, i)
    ensures ReplacedAll(s, target, replacement) == s[..f] + replacement + ReplacedAll(s[f + |target|..], target, replacement)
    decreases f
  {
    if f == 0 {
      assert ReplacedAll(s, target, replacement) == replacement + ReplacedAll(s[|target|..], target, replacement);
      assert s[..f] + replacement == replacement;
    } else {
      FirstInTail(s, target, f);
      ReplacedAllFirst(s[1..], target, replacement, f - 1);
      ReplacedAllShift(s, target, replacement, f);
    }
  }

  /** The text before a later first occurrence starts with the first character. */
  lemma ReplacedAllShift(s: string, target: string, replacement: string, f: nat)
    requires |target| > 0 && 0 < f && f + |target| <= |s| && !OccursAt(s, target, 0)
    requires ReplacedAll(s[1..], target, replacement)
      == s[1..][..f - 1] + replacement + ReplacedAll(s[1..][f - 1 + |target|..], target, replacement)
    ensures ReplacedAll(s, target, replacement) == s[..f] + replacement + ReplacedAll(s[f + |target|..], target, replacement)
  {
    var tail := s[1..];
    var rest := ReplacedAll(s[f + |target|..], target, replacement);
    assert ReplacedAll(s, target, replacement) == [s[0]] + ReplacedAll(tail, target, replacement);
    DropDrop(s, 1, f - 1 + |target|);
    ConsTake(s, f);
    AppendThree([s[0]], tail[..f - 1], replacement, rest);
  }

  /** The scan from `start` finding nothing leaves no occurrence in the suffix. */
  lemma NoOccurrenceFrom(s: string, target: string, start: nat)
    requires |target| > 0 && start <= |s|
    requires Find(s, target, start).None?
    ensures forall i :: !OccursAt(s[start..], target, i)
  {
    FindFirst(s, target, start);
    forall i ensures !OccursAt(s[start..], target, i) {
      OccursInSuffix(s, target, start, i);
    }
  }

  /** The first occurrence in `s` from `start` is the first one in the suffix from `start`. */
  lemma FirstInSuffix(s: string, target: string, start: nat, f: nat)
    requires |target| > 0 && start <= |s|
    requires Find(s, target, start) == Some(f)
    ensures OccursAt(s[start..], target, f - start)
    ensures forall i | i < f - start :: !OccursAt(s[start..], target, i)
  {
    assert OccursAt(s[start..], target, f - start) by {
      OccursInSuffix(s, target, start, f - start);
    }
    FindFirst(s, target, start);
    forall i | i < f - start ensures !OccursAt(s[start..], target, i) {
      OccursInSuffix(s, target, start, i);
    }
  }

  /**
   * One step of the replacing loop: with the first occurrence from `look`
   * at `f`, replacing it and resuming after the replacement keeps the
   * remaining work's result.
   */
  /** Replacing from `look` on, with the first occurrence found at `f`. */
  lemma ReplacedFromFound(r: string, target: string, replacement: string, look: nat, f: nat)
    requires |target| > 0 && look <= |r|
    requires Find(r, target, look) == Some(f)
    ensures ReplacedAll(r[look..], target, replacement)
      == r[look..f] + replacement + ReplacedAll(r[f + |target|..], target, replacement)
  {
    var suffix := r[look..];
    var k: nat := f - look;
    var before, after := r[look..f], r[f + |target|..];
    assert suffix[..k] == before && suffix[k + |target|..] == after;
    assert ReplacedAll(suffix, target, replacement) == before + replacement + ReplacedAll(after, target, replacement) by {
      FirstInSuffix(r, target, look, f);
      ReplacedAllFirst(suffix, target, replacement, k);
    }
  }

  lemma ReplaceStep(r: string, target: string, replacement: string, look: nat, f: nat, next: string)
    requires |target| > 0 && look <= |r|
    requires Find(r, target, look) == Some(f)
    requires next == r[..f] + replacement + r[f + |target|..]
    ensures next[..f + |replacement|] + ReplacedAll(next[f + |replacement|..], target, replacement)
      == r[..look] + ReplacedAll(r[look..], target, replacement)
  {
    var rest := r[f + |target|..];
    var done := ReplacedAll(rest, target, replacement);
    ReplacedFromFound(r, target, replacement, look, f);
    assert next[..f + |replacement|] == r[..f] + replacement && next[f + |replacement|..] == rest;
    assert r[..f] == r[..look] + r[look..f];
    AppendThree(r[..look], r[look..f], replacement, done);
  }

  /**
   * `replace_all_occurences`: find from the last stop, replace, resume
   * after the replacement, until nothing is found.
   */
  method ReplaceAllOccurrences(context: string, target: string, replacement: string) returns (r: string)
    requires |target| > 0
    ensures r == ReplacedAll(context, target, replacement)
  {
    r := context;
    var look: nat := 0;
    while true
      invariant look <= |r|
      invariant r[..look] + ReplacedAll(r[look..], target, replacement) == ReplacedAll(context, target, replacement)
      decreases |r| - look
    {
      var found := Find(r, target, look);
      if found.None? {
        NoOccurrenceFrom(r, target, look);
        ReplacedAllNone(r[look..], target, replacement);
        Glue(r, look);
        return;
      }
      var f := found.value;
      var next := r[..f] + replacement + r[f + |target|..];
      ReplaceStep(r, target, replacement, look, f, next);
      r := next;
      look := f + |replacement|;
    }
  }

  /** The letters `add_space_around_letters` looks for, in its order. */
  const LEGACY_LETTERS: seq<char> := ['M', 'L', 'H', 'V', 'Z']

  /**
   * `std::to_string(letter)`: a `char` is promoted to an integer, so the
   * text searched for is the letter's decimal code ("77" for 'M').
   */
  function LetterText(letter: char): (r: string)
    ensures |r| > 0 && AllDigits(r)
  {
    NatToString(letter as nat)
  }

  /** Each searched text is the code, not the letter: the letter never matches. */
  lemma LetterTextIsCode()
    ensures LetterText('M') == "77" && LetterText('L') == "76" && LetterText('H') == "72"
    ensures LetterText('V') == "86" && LetterText('Z') == "90"
    ensures forall i | 0 <= i < |LEGACY_LETTERS| :: LEGACY_LETTERS[i] !in LetterText(LEGACY_LETTERS[i])
  {
    assert LetterText('M') == NatToString(77) == NatToString(7) + [DigitChar(7)];
    assert LetterText('L') == NatToString(76) == NatToString(7) + [DigitChar(6)];
    assert LetterText('H') == NatToString(72) == NatToString(7) + [DigitChar(2)];
    assert LetterText('V') == NatToString(86) == NatToString(8) + [DigitChar(6)];
    assert LetterText('Z') == NatToString(90) == NatToString(9) + [DigitChar(0)];
  }

  /** Each letter's text replaced by itself between spaces, letter after letter. */
  function SpacedCodes(path: string, letters: seq<char>): string
    decreases |letters|
  {
    if letters == [] then path
    else
      var text := LetterText(letters[0]);
      SpacedCodes(ReplacedAll(path, text, " " + text + " "), letters[1..])
  }

  /** `add_space_around_letters`: each of M, L, H, V, Z in turn. */
  method AddSpaceAroundLetters(path: string) returns (r: string)
    ensures r == SpacedCodes(path, LEGACY_LETTERS)
  {
    r := path;
    for i := 0 to |LEGACY_LETTERS|
      invariant SpacedCodes(r, LEGACY_LETTERS[i..]) == SpacedCodes(path, LEGACY_LETTERS)
    {
      var text := LetterText(LEGACY_LETTERS[i]);
      assert LEGACY_LETTERS[i..][1..] == LEGACY_LETTERS[i + 1..];
      r := ReplaceAllOccurrences(r, text, " " + text + " ");
    }
  }

  /** A path without digits is left as it is by the letter spacing. */
  lemma {:induction false} SpacedCodesNoDigits(path: string, letters: seq<char>)
    requires forall i | 0 <= i < |path| :: !IsDigit(path[i])
    ensures SpacedCodes(path, letters) == path
    decreases |letters|
  {
    if letters != [] {
      var text := LetterText(letters[0]);
      forall i ensures !OccursAt(path, text, i) {
        if 0 <= i && i + |text| <= |path| {
          assert !IsDigit(path[i + 0]) && IsDigit(text[0]);
        }
      }
      ReplacedAllNone(path, text, " " + text + " ");
      SpacedCodesNoDigits(path, letters[1..]);
    }
  }

  /** `format_path`: commas removed, letters capitalized, then the letter spacing. */
  method FormatPath(path: string) returns (r: string)
    ensures r == SpacedCodes(LegacyCapitalized(path), LEGACY_LETTERS)
  {
    r := RemoveCommas(path);
    r := CapitalizeLetters(r);
    assert r == LegacyCapitalized(path);
    r := AddSpaceAroundLetters(r);
  }

  /** The path after `remove_commas` and `capitalize_letters`. */
  function LegacyCapitalized(path: string): (r: string)
    ensures |r| == |path|
  {
    seq(|path|, i requires 0 <= i < |path| => Capitalized(if path[i] == ',' then ' ' else path[i]))
  }

  /**
   * The older formatting leaves a command letter attached to the number
   * after it: "m0" becomes the single token "M0".
   */
  lemma LettersStayAttached()
    ensures SpacedCodes(LegacyCapitalized("m0"), LEGACY_LETTERS) == "M0"
    ensures Split("M0") == ["M0"]
  {
    assert LegacyCapitalized("m0") == "M0";
    LetterTextIsCode();
    forall k | 0 <= k < |LEGACY_LETTERS| ensures forall i :: !OccursAt("M0", LetterText(LEGACY_LETTERS[k]), i) {
      var t := LetterText(LEGACY_LETTERS[k]);
      forall i ensures !OccursAt("M0", t, i) {
        if 0 <= i && i + |t| <= 2 {
          assert "M0"[i + 0] == 'M' && IsDigit(t[0]);
        }
      }
    }
    SpacedCodesUnchanged("M0", LEGACY_LETTERS);
    SplitOne("M0");
  }

  /** The newer spacing of "M0". */
  lemma SpacedM0()
    ensures SvgPath.Spaced("M0", SvgPath.COMMAND_LETTERS) == " M 0"
  {
    SvgPath.SpacedAppend("M", "0", SvgPath.COMMAND_LETTERS);
    assert "M" + "0" == "M0";
    SvgPath.SpacedNone("0", SvgPath.COMMAND_LETTERS);
    assert SvgPath.Spaced("M", SvgPath.COMMAND_LETTERS) == " M " + SvgPath.Spaced("", SvgPath.COMMAND_LETTERS);
  }

  /** The newer formatting gives the letter a token of its own: "m0" becomes "M", "0". */
  lemma LettersSeparated()
    ensures SvgPath.Spaced(SvgPath.NoCommas("M0"), SvgPath.COMMAND_LETTERS) == " M 0"
    ensures Split(" M 0") == ["M", "0"]
  {
    assert SvgPath.NoCommas("M0") == "M0";
    SpacedM0();
    SplitSpacedM0();
  }

  /** The tokens of the newer spacing of "M0". */
  lemma SplitSpacedM0()
    ensures Split(" M 0") == ["M", "0"]
  {
    assert " M 0" == [' '] + "M 0";
    assert "M 0" == "M" + " " + "0";
    SplitSpace(' ', "M 0");
    SplitJoin("M", "0");
    SplitOne("M");
    SplitOne("0");
  }

  /** A text in which none of the letters' codes occurs is left as it is. */
  lemma {:induction false} SpacedCodesUnchanged(path: string, letters: seq<char>)
    requires forall k | 0 <= k < |letters| :: forall i :: !OccursAt(path, LetterText(letters[k]), i)
    ensures SpacedCodes(path, letters) == path
    decreases |letters|
  {
    if letters != [] {
      ReplacedAllNone(path, LetterText(letters[0]), " " + LetterText(letters[0]) + " ");
      assert forall k | 0 <= k < |letters[1..]| :: letters[1..][k] == letters[k + 1];
      SpacedCodesUnchanged(path, letters[1..]);
    }
  }

  /** The older reader's state: the paths it collected, formatted in place. */
  class LegacySvgReader {
    var paths: seq<string>

    constructor()
      ensures paths == []
    {
      paths := [];
    }

    /** `read_file`: the paths directly under each top-level group, in document order. */
    method ReadFile(doc: SvgPath.Document)
      modifies this
      ensures paths == old(paths) + DirectPaths(doc.groups)
    {
      for i := 0 to |doc.groups|
        invariant paths == old(paths) + DirectPaths(doc.groups[..i])
      {
        assert doc.groups[..i + 1][..i] == doc.groups[..i];
        var g := doc.groups[i];
        for j := 0 to |g.paths|
          invariant paths == old(paths) + DirectPaths(doc.groups[..i]) + g.paths[..j]
        {
          assert g.paths[..j + 1] == g.paths[..j] + [g.paths[j]];
          paths := paths + [g.paths[j]];
        }
        assert g.paths[..|g.paths|] == g.paths;
      }
      assert doc.groups[..|doc.groups|] == doc.groups;
    }

    /**
     * `process_paths`: each path is formatted in place and split; the
     * tokens are only logged, so nothing else changes.
     */
    method ProcessPaths()
      modifies this
      ensures |paths| == |old(paths)|
      ensures forall i | 0 <= i < |paths| :: paths[i] == SpacedCodes(LegacyCapitalized(old(paths)[i]), LEGACY_LETTERS)
    {
      for i := 0 to |paths|
        invariant |paths| == |old(paths)|
        invariant forall k | 0 <= k < i :: paths[k] == SpacedCodes(LegacyCapitalized(old(paths)[k]), LEGACY_LETTERS)
        invariant forall k | i <= k < |paths| :: paths[k] == old(paths)[k]
      {
        var formatted := FormatPath(paths[i]);
        var tokens := Split(formatted);
        paths := paths[i := formatted];
      }
    }
  }

  /** The paths directly under each group, group after group. */
  function DirectPaths(groups: seq<SvgPath.Group>): seq<string>
  {
    if groups == [] then [] else DirectPaths(groups[..|groups| - 1]) + groups[|groups| - 1].paths
  }

  /** Every path the older reader collects is one the newer reader collects as well. */
  lemma {:induction false} DirectPathsCollected(groups: seq<SvgPath.Group>, p: string)
    requires p in DirectPaths(groups)
    ensures p in SvgPath.DocumentPaths(groups)
  {
    var init := groups[..|groups| - 1];
    var last := groups[|groups| - 1];
    assert SvgPath.DocumentPaths(groups) == SvgPath.DocumentPaths(init) + SvgPath.GroupPaths(last);
    if p in DirectPaths(init) {
      DirectPathsCollected(init, p);
    } else {
      assert p in SvgPath.GroupPaths(last);
    }
  }
}
