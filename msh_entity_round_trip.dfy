/**
 * The writer's entity lines read back by the reader. A corner line gives
 * back its tag; any other entity line gives back its tag and, as its
 * bounding tags, the tags of its boundaries followed by every internal
 * tag twice: the reader takes each bounding tag by absolute value, so the
 * " id -id" the writer uses to mark an internal component turns into two
 * boundary entries of that component.
 */
module MshEntityRoundTrip {
  import opened Wrappers
  import opened Text
  import opened Streams
  import opened BRepModel
  import opened MshLines
  import opened MshOutput

  /** The signed values behind " id -id" for each internal tag. */
  function Pairs(tags: seq<nat>): (r: seq<int>)
    ensures |r| == 2 * |tags|
  {
    if tags == [] then [] else Pairs(tags[..|tags| - 1]) + [tags[|tags| - 1] as int, -(tags[|tags| - 1] as int)]
  }

  /** Each tag twice in a row. */
  function Doubled(tags: seq<nat>): (r: seq<nat>)
    ensures |r| == 2 * |tags|
    ensures forall j | 0 <= j < |tags| :: r[2 * j] == tags[j] && r[2 * j + 1] == tags[j]
  {
    if tags == [] then [] else Doubled(tags[..|tags| - 1]) + [tags[|tags| - 1], tags[|tags| - 1]]
  }

  /** The absolute value of each value. */
  function Magnitudes(xs: seq<int>): (r: seq<nat>)
    ensures |r| == |xs|
  {
    if xs == [] then [] else [if xs[0] < 0 then -xs[0] else xs[0]] + Magnitudes(xs[1..])
  }

  /** Taking absolute values value by value distributes over concatenation. */
  lemma {:induction false} MagnitudesAppend(a: seq<int>, b: seq<int>)
    ensures Magnitudes(a + b) == Magnitudes(a) + Magnitudes(b)
    decreases |a|
  {
    if a != [] {
      MagnitudesAppend(a[1..], b);
      MagnitudesAppendStep(a, b);
    } else {
      assert a + b == b;
    }
  }

  /** One more leading value on the left of a concatenation. */
  lemma {:induction false} MagnitudesAppendStep(a: seq<int>, b: seq<int>)
    requires a != [] && Magnitudes(a[1..] + b) == Magnitudes(a[1..]) + Magnitudes(b)
    ensures Magnitudes(a + b) == Magnitudes(a) + Magnitudes(b)
  {
    assert (a + b)[1..] == a[1..] + b;
    assert (a + b)[0] == a[0];
  }

  /** Values that are already natural numbers are their own absolute values. */
  lemma {:induction false} MagnitudesOfNats(xs: seq<nat>)
    ensures Magnitudes(xs) == xs
    decreases |xs|
  {
    if xs != [] {
      MagnitudesOfNats(xs[1..]);
    }
  }

  /** The texts of values distribute over concatenation. */
  lemma {:induction false} IntStringsAppend(a: seq<int>, b: seq<int>)
    ensures IntStrings(a + b) == IntStrings(a) + IntStrings(b)
    decreases |a|
  {
    if a != [] {
      var h := [IntToString(a[0])];
      IntStringsAppend(a[1..], b);
      assert (a + b)[1..] == a[1..] + b;
      assert (a + b)[0] == a[0];
      assert IntStrings(a + b) == h + (IntStrings(a[1..]) + IntStrings(b));
      assert h + (IntStrings(a[1..]) + IntStrings(b)) == (h + IntStrings(a[1..])) + IntStrings(b);
    } else {
      assert a + b == b;
    }
  }

  /** The pairs of a tag list, by absolute value, are each tag twice. */
  lemma {:induction false} PairsMagnitudes(tags: seq<nat>)
    ensures Magnitudes(Pairs(tags)) == Doubled(tags)
    decreases |tags|
  {
    if tags != [] {
      var init := tags[..|tags| - 1];
      PairsMagnitudes(init);
      var x := tags[|tags| - 1] as int;
      MagnitudesAppend(Pairs(init), [x, -x]);
      assert Magnitudes([x, -x]) == [x, x] by {
        assert [x, -x][1..] == [-x];
      }
    }
  }

  /** " id" for each boundary tag adds one token per tag. */
  lemma {:induction false} BoundaryTextTokens(p: string, tags: seq<nat>)
    ensures Split(p + BoundaryText(tags)) == Split(p) + IntStrings(tags)
    decreases |tags|
  {
    if tags == [] {
      assert p + BoundaryText(tags) == p;
    } else {
      var init, t := tags[..|tags| - 1], NatToString(tags[|tags| - 1]);
      assert BoundaryText(tags) == BoundaryText(init) + " " + t;
      assert p + BoundaryText(tags) == (p + BoundaryText(init)) + " " + t;
      SplitJoin(p + BoundaryText(init), t);
      SplitOne(t);
      BoundaryTextTokens(p, init);
      assert tags == init + [tags[|tags| - 1]];
      IntStringsAppend(init, [tags[|tags| - 1]]);
      TokensGlue(Split(p + BoundaryText(tags)), Split(p + BoundaryText(init)), Split(p), IntStrings(init), [t], IntStrings(tags));
    }
  }

  /** " id -id" for each internal tag adds the tokens of the tag and of its negation. */
  lemma {:induction false} InternalTextTokens(p: string, tags: seq<nat>)
    requires forall j | 0 <= j < |tags| :: tags[j] > 0
    ensures Split(p + InternalText(tags)) == Split(p) + IntStrings(Pairs(tags))
    decreases |tags|
  {
    if tags == [] {
      assert p + InternalText(tags) == p;
    } else {
      var init := tags[..|tags| - 1];
      InternalTextTokens(p, init);
      InternalTextStep(p, tags);
    }
  }

  /** One more internal tag: two more tokens. */
  lemma {:induction false} InternalTextStep(p: string, tags: seq<nat>)
    requires tags != [] && tags[|tags| - 1] > 0
    requires Split(p + InternalText(tags[..|tags| - 1])) == Split(p) + IntStrings(Pairs(tags[..|tags| - 1]))
    ensures Split(p + InternalText(tags)) == Split(p) + IntStrings(Pairs(tags))
  {
    var init, x := tags[..|tags| - 1], tags[|tags| - 1];
    var q, t := p + InternalText(init), NatToString(x);
    var two := [IntToString(x), IntToString(-(x as int))];
    assert Split(p + InternalText(tags)) == Split(q) + two by {
      assert InternalText(tags) == InternalText(init) + " " + t + " -" + t;
      PairTextRegroup(p, InternalText(init), t);
      PairTokens(q, x);
    }
    assert IntStrings(Pairs(tags)) == IntStrings(Pairs(init)) + two by {
      PairsTexts(tags);
    }
    TokensGlue(Split(p + InternalText(tags)), Split(q), Split(p), IntStrings(Pairs(init)), two, IntStrings(Pairs(tags)));
  }

  /** A prefix followed by " t -t", regrouped as the writer's text and two words. */
  lemma PairTextRegroup(p: string, i: string, t: string)
    ensures p + (i + " " + t + " -" + t) == ((p + i) + " " + t) + " " + ("-" + t)
  {
    assert " -" + t == " " + ("-" + t);
  }

  /** Tokens that extend a prefix's tokens, glued back together. */
  lemma TokensGlue(whole: seq<string>, pre: seq<string>, base: seq<string>, mid: seq<string>, more: seq<string>, all: seq<string>)
    requires whole == pre + more && pre == base + mid && all == mid + more
    ensures whole == base + all
  {
    assert (base + mid) + more == base + (mid + more);
  }

  /** The text " t -t" after a prefix: the prefix's tokens, then t and -t. */
  lemma {:induction false} PairTokens(q: string, x: nat)
    requires x > 0
    ensures Split((q + " " + NatToString(x)) + " " + ("-" + NatToString(x)))
      == Split(q) + [IntToString(x), IntToString(-(x as int))]
  {
    var t := NatToString(x);
    assert IsWord("-" + t) by {
      assert ("-" + t)[1..] == t;
    }
    SplitJoin(q + " " + t, "-" + t);
    SplitJoin(q, t);
    SplitOne(t);
    SplitOne("-" + t);
    assert IntToString(-(x as int)) == "-" + t;
  }

  /** The texts of the pairs of a tag list grow by the last tag's two texts. */
  lemma {:induction false} PairsTexts(tags: seq<nat>)
    requires tags != []
    ensures var x := tags[|tags| - 1] as int;
      IntStrings(Pairs(tags)) == IntStrings(Pairs(tags[..|tags| - 1])) + [IntToString(x), IntToString(-x)]
  {
    var x := tags[|tags| - 1] as int;
    assert Pairs(tags) == Pairs(tags[..|tags| - 1]) + [x, -x];
    assert IntStrings([x, -x]) == [IntToString(x), IntToString(-x)];
    IntStringsAppend(Pairs(tags[..|tags| - 1]), [x, -x]);
  }

  /** Every value fits a 32-bit signed integer. */
  predicate SignedValues(xs: seq<int>)
  {
    forall k | 0 <= k < |xs| :: SIGNED_MIN <= xs[k] <= SIGNED_MAX
  }

  /** The tokens of `s` from its position on parse as the values `xs`, one token each. */
  predicate ParsesAs(s: Stream, xs: seq<int>)
    decreases |xs|
  {
    xs == [] || (s.pos < |s.tokens| && ParseInt(s.tokens[s.pos]) == Some(xs[0]) && ParsesAs(s.(pos := s.pos + 1), xs[1..]))
  }

  /** Tokens that are the texts of values parse as those values. */
  lemma {:induction false} ParsesAsTexts(s: Stream, xs: seq<int>)
    requires s.pos + |xs| <= |s.tokens| && s.tokens[s.pos..s.pos + |xs|] == IntStrings(xs)
    ensures ParsesAs(s, xs)
    decreases |xs|
  {
    if xs != [] {
      var s1 := s.(pos := s.pos + 1);
      assert s.tokens[s.pos] == IntStrings(xs)[0] == IntToString(xs[0]);
      IntToStringRoundTrip(xs[0]);
      assert s1.tokens[s1.pos..s1.pos + |xs| - 1] == IntStrings(xs)[1..] == IntStrings(xs[1..]);
      ParsesAsTexts(s1, xs[1..]);
    }
  }

  /** A signed extraction over a token that parses as an in-range value reads that value. */
  lemma {:induction false} ExtractSignedParsed(s: Stream, x: int)
    requires s.good && s.pos < |s.tokens| && SIGNED_MIN <= x <= SIGNED_MAX
    requires ParseInt(s.tokens[s.pos]) == Some(x)
    ensures ExtractSigned(s, 0) == (x, s.(pos := s.pos + 1))
  {
  }

  /** One more bounding tag: the absolute value of the next token's value. */
  lemma {:induction false} BoundaryIdsStep(s: Stream, xs: seq<int>)
    requires xs != [] && s.good && s.pos < |s.tokens| && SIGNED_MIN <= xs[0] <= SIGNED_MAX
    requires ParseInt(s.tokens[s.pos]) == Some(xs[0])
    requires BoundaryIds(s.(pos := s.pos + 1), |xs| - 1) == Magnitudes(xs[1..])
    ensures BoundaryIds(s, |xs|) == Magnitudes(xs)
  {
    ExtractSignedParsed(s, xs[0]);
  }

  /** Signed extractions over tokens that parse as in-range values read their absolute values. */
  lemma {:induction false} BoundaryIdsOfInts(s: Stream, xs: seq<int>)
    requires s.good && ParsesAs(s, xs) && SignedValues(xs)
    ensures BoundaryIds(s, |xs|) == Magnitudes(xs)
    decreases |xs|
  {
    if xs != [] {
      ParsesAsHead(s, xs);
      BoundaryIdsOfInts(s.(pos := s.pos + 1), xs[1..]);
      BoundaryIdsStep(s, xs);
    }
  }

  /** The first token parses as the first value, and the rest as the others. */
  lemma {:induction false} ParsesAsHead(s: Stream, xs: seq<int>)
    requires ParsesAs(s, xs) && SignedValues(xs) && xs != []
    ensures s.pos < |s.tokens| && ParseInt(s.tokens[s.pos]) == Some(xs[0]) && SIGNED_MIN <= xs[0] <= SIGNED_MAX
    ensures ParsesAs(s.(pos := s.pos + 1), xs[1..]) && SignedValues(xs[1..])
  {
  }

  /** A tag no component's index makes too large for a 32-bit signed value. */
  predicate SignedTags(cs: seq<ComponentId>)
  {
    forall j | 0 <= j < |cs| :: cs[j].index + 1 <= SIGNED_MAX
  }

  /** The four leading fields of an entity line, the box being six words. */
  lemma {:induction false} HeadTokens(tag: string, box: string, zero: string, count: string)
    requires IsWord(tag) && IsWord(zero) && IsWord(count)
    ensures Split(tag + " " + box + " " + zero + " " + count) == [tag] + Split(box) + [zero, count]
  {
    SplitJoin(tag + " " + box + " " + zero, count);
    SplitJoin(tag + " " + box, zero);
    SplitJoin(tag, box);
    SplitOne(tag);
    SplitOne(zero);
    SplitOne(count);
  }

  /**
   * The tokens of a curve, surface or volume entity line: its tag, its
   * box, the physical count, the bounding count, then the bounding tags
   * and the signed internal tags.
   */
  lemma {:induction false} LineTokens(tag: string, box: string, zero: string, count: string, bs: seq<nat>, ins: seq<nat>)
    requires IsWord(tag) && IsWord(zero) && IsWord(count)
    requires forall j | 0 <= j < |ins| :: ins[j] > 0
    ensures Split(tag + " " + box + " " + zero + " " + count + BoundaryText(bs) + InternalText(ins))
      == [tag] + Split(box) + [zero, count] + IntStrings(bs + Pairs(ins))
  {
    var head := tag + " " + box + " " + zero + " " + count;
    InternalTextTokens(head + BoundaryText(bs), ins);
    BoundaryTextTokens(head, bs);
    HeadTokens(tag, box, zero, count);
    IntStringsAppend(bs, Pairs(ins));
    TokensGlue(Split(head + BoundaryText(bs) + InternalText(ins)), Split(head + BoundaryText(bs)), Split(head),
      IntStrings(bs), IntStrings(Pairs(ins)), IntStrings(bs + Pairs(ins)));
  }

  /**
   * An entity line whose tokens are a tag, six box words, the physical
   * count 0, a bounding count and that many in-range signed values reads
   * as the tag and the absolute values.
   */
  lemma {:induction false} EntityLineOfTokens(line: string, box: seq<string>, tag: nat, xs: seq<int>)
    requires |box| == 6 && tag < INDEX_LIMIT && |xs| < INDEX_LIMIT && SignedValues(xs)
    requires Split(line) == [NatToString(tag)] + box + [NatToString(0), NatToString(|xs|)] + IntStrings(xs)
    ensures EntityLine(line) == (tag, Magnitudes(xs))
  {
    var ts := Split(line);
    var s0 := OfLine(line);
    NatToStringRoundTrip(tag);
    NatToStringRoundTrip(0);
    NatToStringRoundTrip(|xs|);
    assert ts[0] == NatToString(tag) && ts[7] == NatToString(0) && ts[8] == NatToString(|xs|);
    assert ExtractIndex(s0, 0) == (tag, s0.(pos := 1));
    assert SkipValues(s0.(pos := 1), 6) == s0.(pos := 7);
    assert ExtractIndex(s0.(pos := 7), 0) == (0, s0.(pos := 8));
    var s5 := s0.(pos := 9);
    assert ExtractIndex(s0.(pos := 8), 0) == (|xs|, s5);
    assert ts[9..9 + |xs|] == IntStrings(xs);
    ParsesAsTexts(s5, xs);
    BoundaryIdsOfInts(s5, xs);
  }

  /**
   * A curve, surface or volume entity line as the writer lays it out reads
   * back as its tag and, as bounding tags, the boundary tags followed by
   * each internal tag twice.
   */
  lemma {:induction false} LineReadsBack(tag: nat, box: string, bs: seq<nat>, ins: seq<nat>)
    requires |Split(box)| == 6 && tag < INDEX_LIMIT && |bs| + 2 * |ins| < INDEX_LIMIT
    requires forall j | 0 <= j < |bs| :: bs[j] <= SIGNED_MAX
    requires forall j | 0 <= j < |ins| :: 0 < ins[j] <= SIGNED_MAX
    ensures EntityLine(NatToString(tag) + " " + box + " " + NatToString(DEFAULT_PHYSICAL_TAG) + " "
      + NatToString(|bs| + 2 * |ins|) + BoundaryText(bs) + InternalText(ins)) == (tag, bs + Doubled(ins))
  {
    var xs := bs + Pairs(ins);
    var line := NatToString(tag) + " " + box + " " + NatToString(DEFAULT_PHYSICAL_TAG) + " "
      + NatToString(|bs| + 2 * |ins|) + BoundaryText(bs) + InternalText(ins);
    LineTokens(NatToString(tag), box, NatToString(DEFAULT_PHYSICAL_TAG), NatToString(|bs| + 2 * |ins|), bs, ins);
    assert SignedValues(xs) by {
      forall k | 0 <= k < |xs| ensures SIGNED_MIN <= xs[k] <= SIGNED_MAX {
        if k >= |bs| {
          PairsBounded(ins, k - |bs|);
        }
      }
    }
    EntityLineOfTokens(line, Split(box), tag, xs);
    PairsMagnitudes(ins);
    MagnitudesAppend(bs, Pairs(ins));
    MagnitudesOfNats(bs);
  }

  /**
   * The reader reads a written curve, surface or volume entity line back
   * as the component's tag and, as its bounding tags, the tags of its
   * boundaries followed by each internal tag twice.
   */
  lemma {:induction false} EntityTextReadsBack(s: Scene, id: ComponentId)
    requires Described(s, id) && id.kind != Corner && |Split(s.boxes[id])| == 6
    requires SignedTags(BoundaryList(s, id)) && SignedTags(InternalList(s, id))
    requires |BoundaryList(s, id)| + 2 * |InternalList(s, id)| < INDEX_LIMIT && id.index + 1 < INDEX_LIMIT
    ensures EntityLine(EntityText(s, id))
      == (id.index + 1, TagsOf(BoundaryList(s, id)) + Doubled(TagsOf(InternalList(s, id))))
  {
    var bs, ins := TagsOf(BoundaryList(s, id)), TagsOf(InternalList(s, id));
    var line := NatToString(id.index + 1) + " " + s.boxes[id] + " " + NatToString(DEFAULT_PHYSICAL_TAG) + " "
      + NatToString(|bs| + 2 * |ins|) + BoundaryText(bs) + InternalText(ins);
    assert EntityText(s, id) == line by {
      assert EntityText(s, id) == EntityLineWith(s, id, bs, ins);
    }
    LineReadsBack(id.index + 1, s.boxes[id], bs, ins);
  }

  /** Every value of the pairs of in-range tags ins a signed 32-bit value. */
  lemma {:induction false} PairsBounded(tags: seq<nat>, k: nat)
    requires forall j | 0 <= j < |tags| :: tags[j] <= SIGNED_MAX
    requires k < 2 * |tags|
    ensures SIGNED_MIN <= Pairs(tags)[k] <= SIGNED_MAX
    decreases |tags|
  {
    var init := tags[..|tags| - 1];
    if k < 2 * |init| {
      PairsBounded(init, k);
    }
  }

  /** The reader reads the tag of a written corner line back. */
  lemma {:induction false} CornerTextReadsBack(s: Scene, id: ComponentId)
    requires Described(s, id) && id.kind == Corner && id.index + 1 < INDEX_LIMIT
    ensures Fields(EntityText(s, id), 1)[0] == id.index + 1
  {
    var tag := NatToString(id.index + 1);
    var rest := CoordsText(s.points[id][0]) + " " + NatToString(DEFAULT_PHYSICAL_TAG);
    assert EntityText(s, id) == tag + " " + rest;
    SplitJoin(tag, rest);
    SplitOne(tag);
    NatToStringRoundTrip(id.index + 1);
  }
}
