/**
 * The SVG path reader of `SVGInputImpl` (src/geode/io/model/svg_input.cpp).
 * Path data (section 8.3 of SVG 1.1) is formatted so that every command
 * letter stands alone, split into whitespace-separated tokens and run
 * through a command state machine: moveto (m), lineto (l), horizontal and
 * vertical lineto (h, v) and closepath (z), absolute when the letter is
 * upper case. The vertices of the current polyline are collected and
 * flushed into a line of the section by `create_line`.
 *
 * Coordinates are reals; `std::stod` is the parameter `number`, which maps
 * a token to its value or to None when the conversion throws.
 */
module SvgPath {
  import opened Wrappers
  import opened Seqs
  import opened Text

  // Messages of the exceptions the reader throws
  const UNSUPPORTED_COMMAND: string := "[SVGInput::Command::apply] Command not supported: "
  const UNKNOWN_COMMAND: string := "[SVGInput::Command::get_nb_params] unknown command"
  const CLOSING_EMPTY_PATH: string := "[SVGInputImpl::apply_command] closing a path without vertices"
  const NOT_A_NUMBER: string := "[SVGInputImpl::get_params] Path token is not a number: "
  const PAST_THE_END: string := "[SVGInputImpl::get_params] token past the end of the path"
  const NOT_A_LETTER: string := "[SVGInputImpl::update_command] Command should be single letter"

  datatype Point = Point(x: real, y: real)

  function Add(p: Point, q: Point): Point
  {
    Point(p.x + q.x, p.y + q.y)
  }

  const ORIGIN := Point(0.0, 0.0)

  // ---------------------------------------------------------------------
  // Commands
  // ---------------------------------------------------------------------

  predicate IsUpper(c: char) { 'A' <= c <= 'Z' }

  predicate IsLower(c: char) { 'a' <= c <= 'z' }

  /** `std::isalpha` in the "C" locale. */
  predicate IsAlpha(c: char) { IsUpper(c) || IsLower(c) }

  /** `std::tolower` in the "C" locale. */
  function ToLower(c: char): char
  {
    if IsUpper(c) then (c as int + 32) as char else c
  }

  /** `std::toupper` in the "C" locale. */
  function ToUpper(c: char): char
  {
    if IsLower(c) then (c as int - 32) as char else c
  }

  /** `Command`: the current letter, lower case, and whether it is absolute. */
  datatype Command = Command(letter: char, absolute: bool)

  /** A fresh command: an absolute lineto. */
  const START_COMMAND := Command('l', true)

  /** `Command::update`. */
  function Update(c: char): Command
  {
    Command(ToLower(c), IsUpper(c))
  }

  /**
   * The upper- and lower-case forms of a letter select the same command;
   * only the upper-case one is absolute.
   */
  lemma UpdateCase(c: char)
    requires IsLower(c)
    ensures Update(ToUpper(c)) == Command(c, true)
    ensures Update(c) == Command(c, false)
  {
  }

  /** `get_nb_params`: the entry of `param_map`, None where `at` throws. */
  function NbParams(letter: char): (r: Option<nat>)
    ensures r.Some? <==> letter in {'m', 'l', 'h', 'v', 'z'}
    ensures r.Some? ==> r.value <= 2
  {
    if letter == 'm' || letter == 'l' then Some(2)
    else if letter == 'h' || letter == 'v' then Some(1)
    else if letter == 'z' then Some(0)
    else None
  }

  /** `Command::apply`: the position a command with its parameters leads to. */
  function Apply(cmd: Command, pos: Point, params: seq<real>): (r: Result<Point>)
    requires NbParams(cmd.letter).Some? ==> |params| == NbParams(cmd.letter).value
    ensures r.Ok? <==> cmd.letter in {'m', 'l', 'h', 'v'}
  {
    if cmd.letter == 'm' || cmd.letter == 'l' then
      var step := Point(params[0], params[1]);
      Ok(if cmd.absolute then step else Add(pos, step))
    else if cmd.letter == 'h' then
      Ok(if cmd.absolute then Point(params[0], pos.y) else Point(pos.x + params[0], pos.y))
    else if cmd.letter == 'v' then
      Ok(if cmd.absolute then Point(pos.x, params[0]) else Point(pos.x, pos.y + params[0]))
    else Err(UNSUPPORTED_COMMAND + [cmd.letter])
  }

  /**
   * A relative command goes where the absolute one goes from the origin,
   * shifted by the current position.
   */
  lemma RelativeIsShiftedAbsolute(letter: char, pos: Point, params: seq<real>)
    requires letter in {'m', 'l', 'h', 'v'} && |params| == NbParams(letter).value
    ensures Apply(Command(letter, false), pos, params).value
      == Add(Apply(Command(letter, true), ORIGIN, params).value, pos)
  {
  }

  /** A horizontal lineto keeps the ordinate and a vertical one the abscissa. */
  lemma ApplyKeepsAxis(cmd: Command, pos: Point, params: seq<real>)
    requires cmd.letter in {'h', 'v'} && |params| == 1
    ensures cmd.letter == 'h' ==> Apply(cmd, pos, params).value.y == pos.y
    ensures cmd.letter == 'v' ==> Apply(cmd, pos, params).value.x == pos.x
  {
  }

  // ---------------------------------------------------------------------
  // Formatting
  // ---------------------------------------------------------------------

  /** The letters `add_space_around_letters` isolates, in the order it spaces them out. */
  const COMMAND_LETTERS: seq<char> := ['M', 'm', 'L', 'l', 'H', 'h', 'V', 'v', 'Z', 'z']

  /** `remove_commas`: every ',' becomes ' '. */
  function NoCommas(s: string): (r: string)
    ensures |r| == |s|
    ensures forall i | 0 <= i < |s| :: r[i] == if s[i] == ',' then ' ' else s[i]
  {
    if s == [] then [] else [if s[0] == ',' then ' ' else s[0]] + NoCommas(s[1..])
  }

  /** Every character of `letters` in `s` surrounded by two spaces. */
  function Spaced(s: string, letters: seq<char>): string
  {
    if s == [] then []
    else (if s[0] in letters then [' ', s[0], ' '] else [s[0]]) + Spaced(s[1..], letters)
  }

  /** Spacing out distributes over concatenation. */
  lemma {:induction false} SpacedAppend(a: string, b: string, letters: seq<char>)
    ensures Spaced(a + b, letters) == Spaced(a, letters) + Spaced(b, letters)
    decreases |a|
  {
    if a == [] {
      assert a + b == b;
    } else {
      SpacedAppend(a[1..], b, letters);
      assert (a + b)[1..] == a[1..] + b;
      assert (a + b)[0] == a[0];
    }
  }

  /** A text without any of the letters is left as it is. */
  lemma {:induction false} SpacedNone(s: string, letters: seq<char>)
    requires forall i | 0 <= i < |s| :: s[i] !in letters
    ensures Spaced(s, letters) == s
    decreases |s|
  {
    if s != [] {
      SpacedNone(s[1..], letters);
    }
  }

  /**
   * Spacing out one letter, then others, spaces out all of them, since the
   * spaces added are not letters.
   */
  lemma {:induction false} SpacedThenRest(s: string, l: char, rest: seq<char>)
    requires ' ' !in rest && l != ' ' && l !in rest
    ensures Spaced(Spaced(s, [l]), rest) == Spaced(s, [l] + rest)
    decreases |s|
  {
    if s != [] {
      var head := if s[0] == l then [' ', l, ' '] else [s[0]];
      SpacedAppend(head, Spaced(s[1..], [l]), rest);
      SpacedThenRest(s[1..], l, rest);
      if s[0] == l {
        assert Spaced(head, rest) == head by {
          SpacedNone(head, rest);
        }
      } else {
        assert head[1..] == [];
      }
    }
  }

  /** The first index at or after `start` where `s` holds `c`: `std::string::find`. */
  function Find(s: string, c: char, start: nat): (r: Option<nat>)
    ensures r.Some? ==> start <= r.value < |s| && s[r.value] == c
    ensures forall i | start <= i < |s| && (r.None? || i < r.value) :: s[i] != c
    decreases |s| - start
  {
    if start >= |s| then None
    else if s[start] == c then Some(start)
    else Find(s, c, start + 1)
  }

  /**
   * `add_spaces(path, letter)`: each occurrence of the letter replaced by
   * " letter ", the search resuming three characters after the last find,
   * past the inserted text, so that the loop ends.
   */
  method AddSpaces(path: string, letter: char) returns (r: string)
    ensures r == Spaced(path, [letter])
  {
    r := path;
    var start := 0;
    ghost var k := 0;
    while true
      invariant k <= |path| && start <= |r|
      invariant r[..start] == Spaced(path[..k], [letter]) && r[start..] == path[k..]
      decreases |path| - k
    {
      var found := Find(r, letter, start);
      if found.None? {
        break;
      }
      var f := found.value;
      ReplaceStep(path, letter, r, start, k, f);
      r := r[..f] + [' ', letter, ' '] + r[f + 1..];
      k := k + (f - start) + 1;
      start := f + 3;
    }
    SpacedRest(path, letter, r, start, k);
  }

  /** One replacement keeps the spaced-out prefix and the untouched rest aligned. */
  lemma ReplaceStep(path: string, letter: char, r: string, start: nat, k: nat, f: nat)
    requires k <= |path| && start <= f < |r| && r[f] == letter
    requires r[..start] == Spaced(path[..k], [letter]) && r[start..] == path[k..]
    requires forall i | start <= i < f :: r[i] != letter
    ensures var r' := r[..f] + [' ', letter, ' '] + r[f + 1..];
      var j := k + (f - start);
      j < |path| && r'[..f + 3] == Spaced(path[..j + 1], [letter]) && r'[f + 3..] == path[j + 1..]
  {
    var j := k + (f - start);
    assert |r| - start == |path| - k;
    assert path[k..j] == r[start..f] by {
      assert forall i | k <= i < j :: path[i] == r[start..][i - k];
    }
    assert path[j] == r[f] by {
      assert r[start..][f - start] == path[k..][f - start];
    }
    assert forall i | k <= i < j :: path[i] != letter by {
      forall i | k <= i < j
        ensures path[i] != letter
      {
        assert path[i] == path[k..j][i - k];
      }
    }
    AddSpacesStep(path, letter, k, j);
    var r' := r[..f] + [' ', letter, ' '] + r[f + 1..];
    assert r'[..f + 3] == r[..start] + r[start..f] + [' ', letter, ' '];
    assert r'[f + 3..] == r[f + 1..];
    assert r[f + 1..] == r[start..][f + 1 - start..];
  }

  /** When no occurrence is left, the rest is already spaced out. */
  lemma SpacedRest(path: string, letter: char, r: string, start: nat, k: nat)
    requires k <= |path| && start <= |r|
    requires r[..start] == Spaced(path[..k], [letter]) && r[start..] == path[k..]
    requires forall i | start <= i < |r| :: r[i] != letter
    ensures r == Spaced(path, [letter])
  {
    var tail := path[k..];
    assert Spaced(tail, [letter]) == tail by {
      forall i | 0 <= i < |tail|
        ensures tail[i] !in [letter]
      {
        assert tail[i] == r[start + i];
      }
      SpacedNone(tail, [letter]);
    }
    assert Spaced(path, [letter]) == Spaced(path[..k], [letter]) + tail by {
      SpacedAppend(path[..k], tail, [letter]);
      assert path[..k] + tail == path;
    }
    Glue(r, start);
  }

  /** The text up to and including the next occurrence, spaced out. */
  lemma AddSpacesStep(path: string, letter: char, k: nat, j: nat)
    requires k <= j < |path| && path[j] == letter
    requires forall i | k <= i < j :: path[i] != letter
    ensures Spaced(path[..j + 1], [letter]) == Spaced(path[..k], [letter]) + path[k..j] + [' ', letter, ' ']
  {
    assert path[..j + 1] == path[..k] + (path[k..j] + [letter]);
    SpacedAppend(path[..k], path[k..j] + [letter], [letter]);
    SpacedAppend(path[k..j], [letter], [letter]);
    SpacedNone(path[k..j], [letter]);
  }

  /** `format_path`: commas removed, then every command letter spaced out. */
  method FormatPath(path: string) returns (r: string)
    ensures r == Spaced(NoCommas(path), COMMAND_LETTERS)
  {
    r := NoCommas(path);
    r := AddSpaceAroundLetters(r);
  }

  /** `add_space_around_letters`: `add_spaces` for each command letter in turn. */
  method AddSpaceAroundLetters(path: string) returns (r: string)
    ensures r == Spaced(path, COMMAND_LETTERS)
  {
    r := AddSpacesEach(path, COMMAND_LETTERS);
  }

  /** The variadic `add_spaces(path, letter, others...)`: the first letter, then the others. */
  method AddSpacesEach(path: string, letters: seq<char>) returns (r: string)
    requires |letters| >= 1 && ' ' !in letters
    requires forall i, j | 0 <= i < j < |letters| :: letters[i] != letters[j]
    ensures r == Spaced(path, letters)
    decreases |letters|
  {
    r := AddSpaces(path, letters[0]);
    if |letters| == 1 {
      assert letters == [letters[0]];
    } else {
      var rest := letters[1..];
      assert [letters[0]] + rest == letters;
      SpacedThenRest(path, letters[0], rest);
      r := AddSpacesEach(r, rest);
    }
  }

  /** In a formatted path every command letter has a space on each side. */
  lemma {:induction false} FormattedLettersStandAlone(s: string, i: nat)
    requires i < |Spaced(s, COMMAND_LETTERS)| && Spaced(s, COMMAND_LETTERS)[i] in COMMAND_LETTERS
    ensures 0 < i < |Spaced(s, COMMAND_LETTERS)| - 1
    ensures Spaced(s, COMMAND_LETTERS)[i - 1] == ' ' && Spaced(s, COMMAND_LETTERS)[i + 1] == ' '
    decreases |s|
  {
    var head := if s[0] in COMMAND_LETTERS then [' ', s[0], ' '] else [s[0]];
    var rest := Spaced(s[1..], COMMAND_LETTERS);
    assert Spaced(s, COMMAND_LETTERS) == head + rest;
    if i >= |head| {
      FormattedLettersStandAlone(s[1..], i - |head|);
    }
  }

  // ---------------------------------------------------------------------
  // Tokens and the command state machine
  // ---------------------------------------------------------------------

  /** `split_path`: the whitespace-separated tokens of the formatted path. */
  function SplitPath(path: string): seq<string>
  {
    Split(path)
  }

  /** `string_isalpha`. */
  predicate AllAlpha(token: string)
  {
    forall i | 0 <= i < |token| :: IsAlpha(token[i])
  }

  /**
   * `update_command`: a letter token selects its command and is consumed;
   * any other token starts an implicit lineto that keeps the current
   * absoluteness and is not consumed.
   */
  function UpdateCommand(tokens: seq<string>, t: nat, cmd: Command): (r: Result<(nat, Command)>)
    requires t < |tokens|
    ensures r.Ok? ==> r.value.0 == t + 1 || (r.value.0 == t && r.value.1 == cmd.(letter := 'l'))
    ensures r.Err? <==> AllAlpha(tokens[t]) && |tokens[t]| != 1
  {
    var token := tokens[t];
    if AllAlpha(token) then
      var next: nat := t + 1;
      if |token| == 1 then Ok((next, Update(token[0])))
      else Err(NOT_A_LETTER)
    else Ok((t, cmd.(letter := 'l')))
  }

  /** Token `k` exists and is a number. */
  predicate NumberAt(tokens: seq<string>, k: nat, number: string -> Option<real>)
  {
    k < |tokens| && number(tokens[k]).Some?
  }

  /**
   * `get_params`: the values of the `nb` tokens from `first`, converted in
   * order; the first that is not a number fails, and so does reading past
   * the last token, which the source leaves undefined.
   */
  function Params(tokens: seq<string>, first: nat, nb: nat, number: string -> Option<real>): (r: Result<seq<real>>)
    requires first <= |tokens|
    ensures r.Ok? <==> forall k | first <= k < first + nb :: NumberAt(tokens, k, number)
    ensures r.Ok? ==> first + nb <= |tokens| && |r.value| == nb
    decreases nb
  {
    if nb == 0 then Ok([])
    else
      match Params(tokens, first, nb - 1, number)
      case Err(e) => Err(e)
      case Ok(ps) =>
        var i := first + nb - 1;
        assert NumberAt(tokens, i, number) <==> i < |tokens| && number(tokens[i]).Some?;
        if i >= |tokens| then Err(PAST_THE_END)
        else match number(tokens[i])
          case None => Err(NOT_A_NUMBER + tokens[i])
          case Some(v) => Ok(ps + [v])
  }

  /** The parameters read are the values of the tokens, in order. */
  lemma {:induction false} ParamsValues(tokens: seq<string>, first: nat, nb: nat, number: string -> Option<real>)
    requires first <= |tokens| && Params(tokens, first, nb, number).Ok?
    ensures forall i | 0 <= i < nb :: Some(Params(tokens, first, nb, number).value[i]) == number(tokens[first + i])
  {
    if nb > 0 {
      ParamsValues(tokens, first, nb - 1, number);
    }
  }

  /**
   * What `apply_command` leaves: the index of the last token it used, the
   * new position and vertices, and the vertex runs it passed to
   * `create_line`.
   */
  datatype Applied = Applied(t: nat, pos: Point, vertices: seq<Point>, flushed: seq<seq<Point>>)

  /**
   * `apply_command`. The parameters are read first. A closepath appends the
   * first vertex and flushes the run; a moveto flushes a pending run before
   * starting a new one; every other command adds the point it leads to.
   * Closing an empty run reads `front()` of an empty vector in the source
   * and fails here.
   */
  function CommandEffect(tokens: seq<string>, t: nat, cmd: Command, pos: Point, vertices: seq<Point>,
                        number: string -> Option<real>): (r: Result<Applied>)
    requires t <= |tokens|
    ensures r.Ok? ==> t <= r.value.t <= |tokens|
    ensures r.Ok? ==> cmd.letter in {'m', 'l', 'h', 'v', 'z'}
    ensures r.Ok? && cmd.letter != 'z' ==> r.value.t < |tokens|
  {
    match NbParams(cmd.letter)
    case None => Err(UNKNOWN_COMMAND)
    case Some(nb) =>
      match Params(tokens, t, nb, number)
      case Err(e) => Err(e)
      case Ok(ps) =>
        if cmd.letter == 'z' then
          if vertices == [] then Err(CLOSING_EMPTY_PATH)
          else Ok(Applied(t, pos, [], [vertices + [vertices[0]]]))
        else
          var flushed := if cmd.letter == 'm' && vertices != [] then [vertices] else [];
          var kept := if cmd.letter == 'm' then [] else vertices;
          var p := Apply(cmd, pos, ps).value;
          Ok(Applied(t + nb - 1, p, kept + [p], flushed))
  }

  /** The state of `process_tokens` between two iterations, with the runs flushed so far. */
  datatype Parse = Parse(t: nat, cmd: Command, pos: Point, vertices: seq<Point>, runs: seq<seq<Point>>)

  /** A path starts with an absolute lineto at the origin and no vertex. */
  const START := Parse(0, START_COMMAND, ORIGIN, [], [])

  /** One iteration of `process_tokens`: update, apply, then move past the last token used. */
  function Step(tokens: seq<string>, st: Parse, number: string -> Option<real>): (r: Result<Parse>)
    requires st.t < |tokens|
    ensures r.Ok? ==> st.t < r.value.t <= |tokens| + 1
  {
    match UpdateCommand(tokens, st.t, st.cmd)
    case Err(e) => Err(e)
    case Ok((t, cmd)) =>
      match CommandEffect(tokens, t, cmd, st.pos, st.vertices, number)
      case Err(e) => Err(e)
      case Ok(a) => Ok(Parse(a.t + 1, cmd, a.pos, a.vertices, st.runs + a.flushed))
  }

  /**
   * `process_tokens` from state `st`: the runs passed to `create_line`,
   * the last being the pending vertices, and whether the path was read.
   */
  function Run(tokens: seq<string>, st: Parse, number: string -> Option<real>): (seq<seq<Point>>, Outcome)
    requires st.t <= |tokens| + 1
    decreases |tokens| + 1 - st.t
  {
    if st.t >= |tokens| then (st.runs + [st.vertices], Pass)
    else
      match Step(tokens, st, number)
      case Err(e) => (st.runs, Fail(e))
      case Ok(next) => Run(tokens, next, number)
  }

  /** A token that cannot select a command ends the run with the runs flushed before it. */
  lemma RunFailsAtUpdate(tokens: seq<string>, st: Parse, number: string -> Option<real>)
    requires st.t < |tokens| && UpdateCommand(tokens, st.t, st.cmd).Err?
    ensures Run(tokens, st, number) == (st.runs, Fail(UpdateCommand(tokens, st.t, st.cmd).message))
  {
  }

  /** A command that cannot be applied ends the run with the runs flushed before it. */
  lemma RunFailsAtApply(tokens: seq<string>, st: Parse, number: string -> Option<real>, next: nat, cmd: Command)
    requires st.t < |tokens| && UpdateCommand(tokens, st.t, st.cmd) == Ok((next, cmd))
    requires CommandEffect(tokens, next, cmd, st.pos, st.vertices, number).Err?
    ensures Run(tokens, st, number)
      == (st.runs, Fail(CommandEffect(tokens, next, cmd, st.pos, st.vertices, number).message))
  {
  }

  /** Once the tokens run out, the pending vertices are the last run. */
  lemma RunEnds(tokens: seq<string>, st: Parse, number: string -> Option<real>)
    requires |tokens| <= st.t <= |tokens| + 1
    ensures Run(tokens, st, number) == (st.runs + [st.vertices], Pass)
  {
  }

  /** A command that applies leaves the rest of the run to the state after it. */
  lemma RunContinues(tokens: seq<string>, st: Parse, number: string -> Option<real>, next: nat, cmd: Command, a: Applied)
    requires st.t < |tokens| && UpdateCommand(tokens, st.t, st.cmd) == Ok((next, cmd))
    requires CommandEffect(tokens, next, cmd, st.pos, st.vertices, number) == Ok(a)
    ensures st.t < a.t + 1 <= |tokens| + 1
    ensures Run(tokens, st, number) == Run(tokens, Parse(a.t + 1, cmd, a.pos, a.vertices, st.runs + a.flushed), number)
  {
    assert Step(tokens, st, number) == Ok(Parse(a.t + 1, cmd, a.pos, a.vertices, st.runs + a.flushed));
  }

  /**
   * Two numbers where a command letter could stand draw a line to the
   * point they give, absolute or relative as the last letter was.
   */
  lemma ImplicitLineto(tokens: seq<string>, st: Parse, number: string -> Option<real>)
    requires st.t + 2 <= |tokens| && !AllAlpha(tokens[st.t])
    requires number(tokens[st.t]).Some? && number(tokens[st.t + 1]).Some?
    ensures var step := Point(number(tokens[st.t]).value, number(tokens[st.t + 1]).value);
      var p := if st.cmd.absolute then step else Add(st.pos, step);
      Step(tokens, st, number)
        == Ok(Parse(st.t + 2, Command('l', st.cmd.absolute), p, st.vertices + [p], st.runs))
  {
    var step := Point(number(tokens[st.t]).value, number(tokens[st.t + 1]).value);
    var p := if st.cmd.absolute then step else Add(st.pos, step);
    var cmd := Command('l', st.cmd.absolute);
    assert UpdateCommand(tokens, st.t, st.cmd) == Ok((st.t, cmd));
    assert NumberAt(tokens, st.t, number) && NumberAt(tokens, st.t + 1, number);
    ParamsValues(tokens, st.t, 2, number);
    var ps := Params(tokens, st.t, 2, number).value;
    assert ps == [number(tokens[st.t]).value, number(tokens[st.t + 1]).value];
    assert CommandEffect(tokens, st.t, cmd, st.pos, st.vertices, number)
      == Ok(Applied(st.t + 1, p, st.vertices + [p], []));
    assert st.runs + [] == st.runs;
  }

  /**
   * A moveto with its two numbers passes the pending vertices, if any, to
   * `create_line` and starts a new run at the point it gives.
   */
  lemma MovetoStartsRun(tokens: seq<string>, st: Parse, number: string -> Option<real>)
    requires st.t + 3 <= |tokens| && tokens[st.t] in {"m", "M"}
    requires number(tokens[st.t + 1]).Some? && number(tokens[st.t + 2]).Some?
    ensures var step := Point(number(tokens[st.t + 1]).value, number(tokens[st.t + 2]).value);
      var absolute := tokens[st.t] == "M";
      var p := if absolute then step else Add(st.pos, step);
      Step(tokens, st, number)
        == Ok(Parse(st.t + 3, Command('m', absolute), p, [p],
                    st.runs + (if st.vertices == [] then [] else [st.vertices])))
  {
    var step := Point(number(tokens[st.t + 1]).value, number(tokens[st.t + 2]).value);
    var absolute := tokens[st.t] == "M";
    var p := if absolute then step else Add(st.pos, step);
    var cmd := Command('m', absolute);
    assert AllAlpha(tokens[st.t]) && |tokens[st.t]| == 1;
    var next: nat := st.t + 1;
    assert UpdateCommand(tokens, st.t, st.cmd) == Ok((next, cmd));
    assert NumberAt(tokens, st.t + 1, number) && NumberAt(tokens, st.t + 2, number);
    ParamsValues(tokens, st.t + 1, 2, number);
    var ps := Params(tokens, st.t + 1, 2, number).value;
    assert ps == [number(tokens[st.t + 1]).value, number(tokens[st.t + 2]).value];
    assert Apply(cmd, st.pos, ps).value == p;
    assert [] + [p] == [p];
    assert CommandEffect(tokens, st.t + 1, cmd, st.pos, st.vertices, number)
      == Ok(Applied(st.t + 2, p, [p], if st.vertices == [] then [] else [st.vertices]));
  }

  /**
   * A closepath flushes the run closed on its first vertex, keeps the
   * position, and the loop's increment then passes over the token that
   * follows it.
   */
  lemma ClosepathSkipsNextToken(tokens: seq<string>, st: Parse, number: string -> Option<real>)
    requires st.t < |tokens| && tokens[st.t] in {"z", "Z"} && st.vertices != []
    ensures Step(tokens, st, number)
      == Ok(Parse(st.t + 2, Command('z', tokens[st.t] == "Z"), st.pos, [],
                  st.runs + [st.vertices + [st.vertices[0]]]))
  {
    assert AllAlpha(tokens[st.t]) && |tokens[st.t]| == 1;
  }

  /** A closepath with no vertex before it fails: the source reads `front()` of an empty vector. */
  lemma ClosepathNeedsVertex(tokens: seq<string>, st: Parse, number: string -> Option<real>)
    requires st.t < |tokens| && tokens[st.t] in {"z", "Z"} && st.vertices == []
    ensures Step(tokens, st, number).Err?
  {
    assert AllAlpha(tokens[st.t]) && |tokens[st.t]| == 1;
  }

  // ---------------------------------------------------------------------
  // Lines of the section
  // ---------------------------------------------------------------------

  /** The edges `create_line` gives `n` points. */
  function Chain(n: nat): seq<(nat, nat)>
  {
    if n <= 1 then [] else Chain(n - 1) + [(n - 2, n - 1)]
  }

  /** A line of `n` points has `n - 1` edges, the `i`-th joining point `i` to point `i + 1`. */
  lemma {:induction false} ChainEdges(n: nat)
    ensures n >= 1 ==> |Chain(n)| == n - 1
    ensures forall i | 0 <= i < |Chain(n)| :: Chain(n)[i] == (i, i + 1)
  {
    if n > 1 {
      ChainEdges(n - 1);
    }
  }

  /** The mesh of a line component: its points and its edges. */
  datatype Polyline = Polyline(points: seq<Point>, edges: seq<(nat, nat)>)

  /**
   * An entry of `potential_corners_` together with its entry of
   * `potential_corner_cmv_`: an end point of a line and its vertex there.
   */
  datatype LineEnd = LineEnd(point: Point, line: nat, vertex: nat)

  /** `create_line(vertices)` on the lines and potential corners made so far. */
  function AddLine(lines: seq<Polyline>, ends: seq<LineEnd>, vertices: seq<Point>): (seq<Polyline>, seq<LineEnd>)
  {
    if |vertices| < 2 then (lines, ends)
    else
      (lines + [Polyline(vertices, Chain(|vertices|))],
       ends + [LineEnd(vertices[0], |lines|, 0), LineEnd(vertices[|vertices| - 1], |lines|, |vertices| - 1)])
  }

  /** `create_line` for each run in turn. */
  function AddLines(lines: seq<Polyline>, ends: seq<LineEnd>, runs: seq<seq<Point>>): (seq<Polyline>, seq<LineEnd>)
    decreases |runs|
  {
    if runs == [] then (lines, ends)
    else
      var before := AddLines(lines, ends, runs[..|runs| - 1]);
      AddLine(before.0, before.1, runs[|runs| - 1])
  }

  /** The runs `create_line` keeps, as line meshes: those of at least two points. */
  function Polylines(runs: seq<seq<Point>>): seq<Polyline>
    decreases |runs|
  {
    if runs == [] then []
    else
      var last := runs[|runs| - 1];
      Polylines(runs[..|runs| - 1]) + (if |last| < 2 then [] else [Polyline(last, Chain(|last|))])
  }

  /** Adding a single run is `create_line` on it. */
  lemma AddLinesOne(lines: seq<Polyline>, ends: seq<LineEnd>, vertices: seq<Point>)
    ensures AddLines(lines, ends, [vertices]) == AddLine(lines, ends, vertices)
  {
    assert [vertices][..0] == [];
  }

  /** Adding runs one after the other is adding them all. */
  lemma {:induction false} AddLinesAppend(lines: seq<Polyline>, ends: seq<LineEnd>, runs: seq<seq<Point>>, more: seq<seq<Point>>)
    ensures AddLines(lines, ends, runs + more)
      == AddLines(AddLines(lines, ends, runs).0, AddLines(lines, ends, runs).1, more)
    decreases |more|
  {
    if more == [] {
      assert runs + more == runs;
    } else {
      var init := more[..|more| - 1];
      AddLinesAppend(lines, ends, runs, init);
      assert (runs + more)[..|runs + more| - 1] == runs + init;
      assert (runs + more)[|runs + more| - 1] == more[|more| - 1];
    }
  }

  /**
   * Each line of the section is a chain of at least two points, and the
   * potential corners are the two ends of each line, line after line.
   */
  predicate LinesWithEnds(lines: seq<Polyline>, ends: seq<LineEnd>)
  {
    |ends| == 2 * |lines| &&
    forall i | 0 <= i < |lines| ::
      |lines[i].points| >= 2 && lines[i].edges == Chain(|lines[i].points|) &&
      ends[2 * i] == LineEnd(lines[i].points[0], i, 0) &&
      ends[2 * i + 1] == LineEnd(lines[i].points[|lines[i].points| - 1], i, |lines[i].points| - 1)
  }

  /**
   * `create_line` keeps every run of at least two points as a new line,
   * drops the shorter ones, and gives each line its two end points as
   * potential corners.
   */
  lemma {:induction false} AddLinesKeepsEnds(lines: seq<Polyline>, ends: seq<LineEnd>, runs: seq<seq<Point>>)
    requires LinesWithEnds(lines, ends)
    ensures AddLines(lines, ends, runs).0 == lines + Polylines(runs)
    ensures LinesWithEnds(AddLines(lines, ends, runs).0, AddLines(lines, ends, runs).1)
    decreases |runs|
  {
    if runs == [] {
      assert lines + [] == lines;
    } else {
      var init := runs[..|runs| - 1];
      var last := runs[|runs| - 1];
      AddLinesKeepsEnds(lines, ends, init);
      var before := AddLines(lines, ends, init);
      if |last| >= 2 {
        AddLineKeepsEnds(before.0, before.1, last);
      }
      assert lines + Polylines(runs) == lines + Polylines(init) + (if |last| < 2 then [] else [Polyline(last, Chain(|last|))]);
    }
  }

  /** One line added keeps every line matched with its two ends. */
  lemma AddLineKeepsEnds(lines: seq<Polyline>, ends: seq<LineEnd>, vertices: seq<Point>)
    requires LinesWithEnds(lines, ends) && |vertices| >= 2
    ensures LinesWithEnds(AddLine(lines, ends, vertices).0, AddLine(lines, ends, vertices).1)
  {
    var (l, e) := AddLine(lines, ends, vertices);
    forall i | 0 <= i < |l|
      ensures e[2 * i] == LineEnd(l[i].points[0], i, 0)
      ensures e[2 * i + 1] == LineEnd(l[i].points[|l[i].points| - 1], i, |l[i].points| - 1)
    {
      if i < |lines| {
        assert l[i] == lines[i];
        assert e[2 * i] == ends[2 * i] && e[2 * i + 1] == ends[2 * i + 1];
      }
    }
  }

  // ---------------------------------------------------------------------
  // Documents
  // ---------------------------------------------------------------------

  /** An SVG `g` element: the `d` attributes of its `path` children, and its child groups. */
  datatype Group = Group(paths: seq<string>, groups: seq<Group>)

  /** The `svg` element: the `d` attributes of its own `path` children, and its groups. */
  datatype Document = Document(paths: seq<string>, groups: seq<Group>)

  /** The paths `read_group_paths` collects: its own, then those of each child group, depth first. */
  function GroupPaths(g: Group): seq<string>
    decreases g, 1
  {
    g.paths + ChildPaths(g, 0)
  }

  /** The paths of the child groups from the `i`-th on. */
  function ChildPaths(g: Group, i: nat): seq<string>
    decreases g, 0, |g.groups| - i
  {
    if i >= |g.groups| then [] else GroupPaths(g.groups[i]) + ChildPaths(g, i + 1)
  }

  /** The paths `read_file` collects: those of the top-level groups only. */
  function DocumentPaths(groups: seq<Group>): seq<string>
    decreases |groups|
  {
    if groups == [] then [] else DocumentPaths(groups[..|groups| - 1]) + GroupPaths(groups[|groups| - 1])
  }

  /** Every path of a group, at any depth, is collected. */
  lemma {:induction false} NestedPathCollected(g: Group, i: nat, j: nat, p: string)
    requires i <= j < |g.groups| && p in GroupPaths(g.groups[j])
    ensures p in ChildPaths(g, i)
    decreases j - i
  {
    if i < j {
      NestedPathCollected(g, i + 1, j, p);
    }
  }

  /** The tokens of a path once formatted: `format_path`, then `split_path`. */
  function PathTokens(path: string): seq<string>
  {
    SplitPath(Spaced(NoCommas(path), COMMAND_LETTERS))
  }

  /**
   * `process_paths`: the runs of each path in turn; the first path that
   * cannot be read stops the reading, after the runs it flushed.
   */
  function ProcessedRuns(paths: seq<string>, number: string -> Option<real>): (seq<seq<Point>>, Outcome)
    decreases |paths|
  {
    if paths == [] then ([], Pass)
    else
      var first := Run(PathTokens(paths[0]), START, number);
      if first.1.Fail? then first
      else
        var rest := ProcessedRuns(paths[1..], number);
        (first.0 + rest.0, rest.1)
  }

  /** Reading the paths passes exactly when every path's tokens can be read. */
  lemma {:induction false} ProcessedRunsPass(paths: seq<string>, number: string -> Option<real>)
    ensures ProcessedRuns(paths, number).1 == Pass
      <==> forall i | 0 <= i < |paths| :: Run(PathTokens(paths[i]), START, number).1 == Pass
    decreases |paths|
  {
    if paths != [] {
      ProcessedRunsPass(paths[1..], number);
      assert forall i | 1 <= i < |paths| :: paths[i] == paths[1..][i - 1];
    }
  }

  /** Reading the paths from the `i`-th on is reading the `i`-th, then, if it passes, the others. */
  lemma ProcessedRunsStep(paths: seq<string>, i: nat, number: string -> Option<real>)
    requires i < |paths|
    ensures var run := Run(PathTokens(paths[i]), START, number);
      ProcessedRuns(paths[i..], number)
        == if run.1.Fail? then run else (run.0 + ProcessedRuns(paths[i + 1..], number).0, ProcessedRuns(paths[i + 1..], number).1)
  {
    assert paths[i..][0] == paths[i] && paths[i..][1..] == paths[i + 1..];
  }

  /** The reader's state: the collected paths, then the lines and potential corners built from them. */
  class SvgPathReader {
    var paths: seq<string>
    var lines: seq<Polyline>
    var ends: seq<LineEnd>

    constructor()
      ensures paths == [] && lines == [] && ends == []
    {
      paths := [];
      lines := [];
      ends := [];
    }

    /** `read_group_paths`: a group's own paths, then recursively those of its child groups. */
    method ReadGroupPaths(g: Group)
      modifies this`paths
      ensures paths == old(paths) + GroupPaths(g)
      decreases g, 1
    {
      for i := 0 to |g.paths|
        invariant paths == old(paths) + g.paths[..i]
      {
        paths := paths + [g.paths[i]];
      }
      assert g.paths[..|g.paths|] == g.paths;
      for i := 0 to |g.groups|
        invariant paths + ChildPaths(g, i) == old(paths) + GroupPaths(g)
      {
        ReadGroupPaths(g.groups[i]);
      }
    }

    /** `read_file`: the paths of each top-level group; paths outside a group are not read. */
    method ReadFile(doc: Document)
      modifies this`paths
      ensures paths == old(paths) + DocumentPaths(doc.groups)
    {
      for i := 0 to |doc.groups|
        invariant paths == old(paths) + DocumentPaths(doc.groups[..i])
      {
        assert doc.groups[..i + 1][..i] == doc.groups[..i];
        ReadGroupPaths(doc.groups[i]);
      }
      assert doc.groups[..|doc.groups|] == doc.groups;
    }

    /** `create_line`: a line of the points, each joined to the next, and its two ends as potential corners. */
    method CreateLine(vertices: seq<Point>)
      modifies this`lines, this`ends
      ensures (lines, ends) == AddLine(old(lines), old(ends), vertices)
    {
      if |vertices| < 2 {
        return;
      }
      var points := [vertices[0]];
      var edges: seq<(nat, nat)> := [];
      for v := 1 to |vertices|
        invariant points == vertices[..v] && edges == Chain(v)
      {
        points := points + [vertices[v]];
        edges := edges + [(v - 1, v)];
      }
      assert points == vertices;
      var line := |lines|;
      lines := lines + [Polyline(points, edges)];
      ends := ends + [LineEnd(vertices[0], line, 0), LineEnd(vertices[|vertices| - 1], line, |vertices| - 1)];
    }

    /** `apply_command`, passing the runs it flushes to `create_line`. */
    method ApplyCommand(tokens: seq<string>, t: nat, cmd: Command, pos: Point, vertices: seq<Point>,
                        number: string -> Option<real>) returns (r: Result<Applied>)
      requires t <= |tokens|
      modifies this`lines, this`ends
      ensures r == CommandEffect(tokens, t, cmd, pos, vertices, number)
      ensures (lines, ends) == if r.Ok? then AddLines(old(lines), old(ends), r.value.flushed) else (old(lines), old(ends))
    {
      var nb := NbParams(cmd.letter);
      if nb.None? {
        return Err(UNKNOWN_COMMAND);
      }
      var params := Params(tokens, t, nb.value, number);
      if params.Err? {
        return Err(params.message);
      }
      if cmd.letter == 'z' {
        if vertices == [] {
          return Err(CLOSING_EMPTY_PATH);
        }
        var closed := vertices + [vertices[0]];
        AddLinesOne(lines, ends, closed);
        CreateLine(closed);
        return Ok(Applied(t, pos, [], [closed]));
      }
      var kept := vertices;
      var flushed: seq<seq<Point>> := [];
      if cmd.letter == 'm' && vertices != [] {
        AddLinesOne(lines, ends, vertices);
        CreateLine(vertices);
        kept := [];
        flushed := [vertices];
      }
      var p := Apply(cmd, pos, params.value).value;
      r := Ok(Applied(t + nb.value - 1, p, kept + [p], flushed));
    }

    /**
     * `process_tokens`: update, apply and advance until the tokens run
     * out, then pass the pending vertices to `create_line`.
     */
    method ProcessTokens(tokens: seq<string>, number: string -> Option<real>) returns (outcome: Outcome)
      modifies this`lines, this`ends
      ensures outcome == Run(tokens, START, number).1
      ensures (lines, ends) == AddLines(old(lines), old(ends), Run(tokens, START, number).0)
    {
      var vertices: seq<Point> := [];
      var cmd := START_COMMAND;
      var pos := ORIGIN;
      var t: nat := 0;
      ghost var runs: seq<seq<Point>> := [];
      ghost var goal := Run(tokens, START, number);
      while t < |tokens|
        invariant t <= |tokens| + 1
        invariant Run(tokens, Parse(t, cmd, pos, vertices, runs), number) == goal
        invariant (lines, ends) == AddLines(old(lines), old(ends), runs)
        decreases |tokens| + 1 - t
      {
        ghost var st := Parse(t, cmd, pos, vertices, runs);
        var u := UpdateCommand(tokens, t, cmd);
        if u.Err? {
          RunFailsAtUpdate(tokens, st, number);
          return Fail(u.message);
        }
        var next := u.value.0;
        cmd := u.value.1;
        var a := ApplyCommand(tokens, next, cmd, pos, vertices, number);
        if a.Err? {
          RunFailsAtApply(tokens, st, number, next, cmd);
          return Fail(a.message);
        }
        RunContinues(tokens, st, number, next, cmd, a.value);
        AddLinesAppend(old(lines), old(ends), runs, a.value.flushed);
        runs := runs + a.value.flushed;
        t := a.value.t + 1;
        pos := a.value.pos;
        vertices := a.value.vertices;
      }
      RunEnds(tokens, Parse(t, cmd, pos, vertices, runs), number);
      CreateLine(vertices);
      AddLinesAppend(old(lines), old(ends), runs, [vertices]);
      AddLinesOne(AddLines(old(lines), old(ends), runs).0, AddLines(old(lines), old(ends), runs).1, vertices);
      outcome := Pass;
    }

    /** `process_paths`: each path formatted, split and processed, in order, until one fails. */
    method ProcessPaths(number: string -> Option<real>) returns (outcome: Outcome)
      modifies this`lines, this`ends
      ensures outcome == ProcessedRuns(paths, number).1
      ensures (lines, ends) == AddLines(old(lines), old(ends), ProcessedRuns(paths, number).0)
    {
      ghost var done: seq<seq<Point>> := [];
      ghost var goal := ProcessedRuns(paths, number);
      assert paths[0..] == paths && [] + goal.0 == goal.0;
      for i := 0 to |paths|
        invariant (lines, ends) == AddLines(old(lines), old(ends), done)
        invariant goal == (done + ProcessedRuns(paths[i..], number).0, ProcessedRuns(paths[i..], number).1)
      {
        var path := FormatPath(paths[i]);
        var tokens := SplitPath(path);
        outcome := ProcessTokens(tokens, number);
        ghost var run := Run(tokens, START, number);
        AddLinesAppend(old(lines), old(ends), done, run.0);
        ProcessedRunsStep(paths, i, number);
        if outcome.Fail? {
          return;
        }
        AppendTwo(done, run.0, ProcessedRuns(paths[i + 1..], number).0);
        done := done + run.0;
      }
      assert done + [] == done;
      outcome := Pass;
    }
  }
}
