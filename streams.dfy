/**
 * Formatted extraction (`iss >> value`) from a `std::istringstream` over
 * one line, as the MSH reader uses it. The line is seen as its
 * whitespace-separated tokens, a read position and the stream's good
 * state. An extraction on a stream that has failed, or that has no token
 * left, leaves the target unchanged and fails the stream; a token that is
 * not a number stores 0 and fails the stream; an unsigned value too large
 * for 32 bits stores the largest value and fails the stream.
 */
module Streams {
  import opened Wrappers
  import opened Text

  /** `index_t` is a 32-bit unsigned integer. */
  const INDEX_LIMIT: nat := 0x1_0000_0000
  /** The largest `index_t`, also the "no id" marker. */
  const NO_ID: nat := INDEX_LIMIT - 1

  type Index = x: nat | x < INDEX_LIMIT

  /** `signed_index_t` is a 32-bit signed integer. */
  const SIGNED_MIN: int := -0x8000_0000
  const SIGNED_MAX: int := 0x7FFF_FFFF

  type SignedIndex = x: int | SIGNED_MIN <= x <= SIGNED_MAX

  /** A token that converts to an `index_t`: a decimal number below 2^32. */
  function ParseIndex(token: string): (r: Option<Index>)
    ensures r.Some? ==> ParseNat(token) == Some(r.value as nat)
    ensures r.None? ==> ParseNat(token).None? || ParseNat(token).value >= INDEX_LIMIT
  {
    match ParseNat(token)
    case Some(n) => if n < INDEX_LIMIT then Some(n) else None
    case None => None
  }

  datatype Stream = Stream(tokens: seq<string>, pos: nat, good: bool)

  /** `std::istringstream iss{ line }`. */
  function OfLine(line: string): Stream
  {
    Stream(Split(line), 0, true)
  }

  /** Whether a further extraction can find a token. */
  predicate HasToken(s: Stream)
  {
    s.good && s.pos < |s.tokens|
  }

  /** `iss >> x` for an `index_t x` holding `prev`: the stored value and the new stream. */
  function ExtractIndex(s: Stream, prev: Index): (r: (Index, Stream))
  {
    if !HasToken(s) then (prev, s.(good := false))
    else
      match ParseNat(s.tokens[s.pos])
      case Some(n) =>
        if n < INDEX_LIMIT then (n, s.(pos := s.pos + 1))
        else (NO_ID, s.(pos := s.pos + 1, good := false))
      case None => (0, s.(good := false))
  }

  /** `iss >> x` for a `signed_index_t x` holding `prev`. */
  function ExtractSigned(s: Stream, prev: SignedIndex): (r: (SignedIndex, Stream))
  {
    if !HasToken(s) then (prev, s.(good := false))
    else
      match ParseInt(s.tokens[s.pos])
      case Some(i) =>
        if i > SIGNED_MAX then (SIGNED_MAX, s.(pos := s.pos + 1, good := false))
        else if i < SIGNED_MIN then (SIGNED_MIN, s.(pos := s.pos + 1, good := false))
        else (i, s.(pos := s.pos + 1))
      case None => (0, s.(good := false))
  }

  /**
   * `iss >> d` for a `double d` whose value the model does not keep
   * (bounding boxes): the token is consumed when there is one.
   */
  function SkipValue(s: Stream): (r: Stream)
  {
    if HasToken(s) then s.(pos := s.pos + 1) else s.(good := false)
  }

  /**
   * `n` such extractions in one step: the stream stays good only when `n`
   * tokens are left; otherwise every token left is consumed and it fails.
   */
  function SkipValues(s: Stream, n: nat): (r: Stream)
    ensures r.tokens == s.tokens
    ensures r.good <==> s.good && (n == 0 || s.pos + n <= |s.tokens|)
  {
    if n == 0 || !s.good then s
    else if s.pos + n <= |s.tokens| then s.(pos := s.pos + n)
    else s.(pos := if s.pos < |s.tokens| then |s.tokens| else s.pos, good := false)
  }

  /** `n` extractions one after the other. */
  function SkipEach(s: Stream, n: nat): (r: Stream)
    decreases n
  {
    if n == 0 then s else SkipEach(SkipValue(s), n - 1)
  }

  /** Skipping `n` values at once is skipping them one by one. */
  lemma {:induction false} SkipValuesIsSkipEach(s: Stream, n: nat)
    ensures SkipValues(s, n) == SkipEach(s, n)
    decreases n
  {
    if n > 0 {
      SkipValuesIsSkipEach(SkipValue(s), n - 1);
    }
  }

  /** `n` extractions into one `index_t` whose values are discarded. */
  function SkipIndices(s: Stream, n: nat): (r: Stream)
    ensures r.tokens == s.tokens
    decreases n
  {
    if n == 0 then s else SkipIndices(ExtractIndex(s, 0).1, n - 1)
  }

  /**
   * A coordinate kept as its text: the next token, or "" when the
   * stream has failed or has no token left.
   */
  function ExtractText(s: Stream): (r: (string, Stream))
  {
    if HasToken(s) then (s.tokens[s.pos], s.(pos := s.pos + 1)) else ("", s.(good := false))
  }

  /** `std::getline` on a file of `lines`: past the end it yields "". */
  function LineAt(lines: seq<string>, i: nat): string
  {
    if i < |lines| then lines[i] else ""
  }

  /** The lines of `lines` from line `p` on are `block`. */
  predicate LinesAt(lines: seq<string>, p: nat, block: seq<string>)
  {
    forall i | 0 <= i < |block| :: LineAt(lines, p + i) == block[i]
  }
}
