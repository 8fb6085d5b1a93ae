/** What quoted text says has no influence on the mask. */
module SqlPayload {
  import opened Results
  import opened SqlText
  import opened SqlTokens
  import opened SqlScanner
  import opened SqlSections

  /** `done` are tokens of `s` that cover exactly its first `i` characters. */
  ghost predicate Covers(u: CharClass, d: Dialect, s: string, done: seq<Token>, i: nat)
    decreases |done|
  {
    if done == [] then i == 0
    else
      var last := done[|done| - 1];
      && last.start < last.end == i <= |s|
      && IsToken(u, d, s, last)
      && Covers(u, d, s, done[..|done| - 1], last.start)
  }

  lemma {:induction false} MaskAfter(u: CharClass, d: Dialect, s: string, done: seq<Token>, i: nat)
    requires Covers(u, d, s, done, i)
    ensures i <= |s| && Mask(u, d, s) == Prepend(Render(s, done), MaskFrom(u, d, s, i))
    decreases |done|
  {
    if done == [] {
      var rest := MaskFrom(u, d, s, i);
      assert rest.Ok? ==> Render(s, done) + rest.value == rest.value;
    } else {
      var t, before := done[|done| - 1], done[..|done| - 1];
      MaskAfter(u, d, s, before, t.start);
      StepIff(u, d, s, t.start, t);
      PrependStep(u, d, s, t.start, Render(s, before), t);
      assert Render(s, done) == Render(s, before) + [Glyph(s, t)];
    }
  }

  // --- before the quote: tokens look no further than the quote itself ---------------------

  ghost predicate SameUpTo(s: string, r: string, i: nat) {
    i < |s| && i < |r| && forall k | 0 <= k <= i :: s[k] == r[k]
  }

  lemma CodeIsLocal(u: CharClass, d: Dialect, s: string, r: string, a: nat, i: nat)
    requires SameUpTo(s, r, i) && OpensQuote(d, s[i]) && a < i
    requires IsCode(u, d, s, a)
    ensures IsCode(u, d, r, a)
  {
    forall e: nat | TagAt(r, a, e) ensures TagAt(s, a, e) {
      assert !IsTagLetter(r[i]) && r[i] != '$';
    }
  }

  /** A token that ends by `i`, where a quote opens, stays one whatever comes after the quote. */
  lemma {:induction false} CoversIsLocal(u: CharClass, d: Dialect, s: string, r: string, done: seq<Token>, n: nat,
                                         i: nat)
    requires SameUpTo(s, r, i) && OpensQuote(d, s[i]) && n <= i
    requires Covers(u, d, s, done, n)
    ensures Covers(u, d, r, done, n) && Render(s, done) == Render(r, done)
    decreases |done|
  {
    if done != [] {
      var t, before := done[|done| - 1], done[..|done| - 1];
      CoversIsLocal(u, d, s, r, before, t.start, i);
      match t.kind {
        case Comment => CommentIsLocal(d, s, r, t.start, t.end);
        case Quoted => QuotedIsLocal(u, d, s, r, t.start, t.end);
        case Code => CodeIsLocal(u, d, s, r, t.start, i);
      }
      assert Glyph(s, t) == Glyph(r, t);
      assert Render(s, done) == Render(s, before) + [Glyph(s, t)];
      assert Render(r, done) == Render(r, before) + [Glyph(r, t)];
    }
  }

  // --- after the quote: the scanner does not know where it is -----------------------------

  ghost predicate SameRest(s: string, i: nat, r: string, j: nat) {
    && i <= |s| && j <= |r| && |s| - i == |r| - j
    && forall k | i <= k < |s| :: s[k] == r[k - i + j]
  }

  lemma SliceShifts(s: string, i: nat, r: string, j: nat, a: nat, b: nat)
    requires SameRest(s, i, r, j) && i <= a <= b <= |s|
    ensures s[a..b] == r[a - i + j..b - i + j]
  {
    var x, y := s[a..b], r[a - i + j..b - i + j];
    forall k | 0 <= k < |x| ensures x[k] == y[k] {
      assert x[k] == s[a + k];
    }
  }

  lemma {:induction false} FindShifts(s: string, i: nat, r: string, j: nat, pat: string, a: nat)
    requires SameRest(s, i, r, j) && i <= a
    ensures Find(s, pat, a) < 0 <==> Find(r, pat, a - i + j) < 0
    ensures Find(s, pat, a) >= 0 ==> Find(s, pat, a) - i == Find(r, pat, a - i + j) - j
    decreases |s| - a
  {
    if a <= |s| {
      if a + |pat| <= |s| {
        SliceShifts(s, i, r, j, a, a + |pat|);
      }
      FindShifts(s, i, r, j, pat, a + 1);
    }
  }

  ghost predicate Shifted(x: Result<nat, Rejection>, i: nat, y: Result<nat, Rejection>, j: nat) {
    match x
    case Ok(b) => y.Ok? && b - i == y.value - j
    case Err(e) => y == Err(e)
  }

  lemma {:induction false} QuoteEndShifts(s: string, i: nat, r: string, j: nat, close: char)
    requires SameRest(s, i, r, j)
    ensures Shifted(QuoteEnd(s, i, close), i, QuoteEnd(r, j, close), j)
    decreases |s| - i
  {
    if i < |s| {
      assert s[i] == r[j];
      QuoteEndShifts(s, i + 1, r, j + 1, close);
      if i + 1 < |s| {
        assert s[i + 1] == r[j + 1];
        QuoteEndShifts(s, i + 2, r, j + 2, close);
      }
    }
  }

  lemma {:induction false} TagLettersShift(s: string, i: nat, r: string, j: nat)
    requires SameRest(s, i, r, j)
    ensures TagLettersEnd(s, i) - i == TagLettersEnd(r, j) - j
    decreases |s| - i
  {
    if i < |s| {
      assert s[i] == r[j];
      TagLettersShift(s, i + 1, r, j + 1);
    }
  }

  lemma MatchTagShifts(s: string, i: nat, r: string, j: nat)
    requires SameRest(s, i, r, j) && i < |s| && j < |r| && s[i] == r[j] == '$'
    ensures match MatchTag(s, i)
            case None => MatchTag(r, j).None?
            case Some(e) => MatchTag(r, j) == Some(e - i + j)
  {
    TagLettersShift(s, i + 1, r, j + 1);
    var e := TagLettersEnd(s, i + 1);
    assert e < |s| ==> s[e] == r[e - i + j];
  }

  lemma DollarShifts(s: string, i: nat, r: string, j: nat, e: nat)
    requires SameRest(s, i, r, j) && i < e <= |s|
    ensures Shifted(DollarQuoteEnd(s, i, e), i, DollarQuoteEnd(r, j, e - i + j), j)
  {
    SliceShifts(s, i, r, j, i, e);
    FindShifts(s, i, r, j, s[i..e], e);
  }

  lemma CommentShifts(s: string, i: nat, r: string, j: nat)
    requires SameRest(s, i, r, j) && i < |s| && j < |r|
    ensures s[i] != '\n' && r[j] != '\n' ==> SkipToLineEnd(s, i) - i == SkipToLineEnd(r, j) - j
    ensures PairAt(s, i, '/', '*') && PairAt(r, j, '/', '*') ==>
              Shifted(BlockCommentEnd(s, i), i, BlockCommentEnd(r, j), j)
  {
    FindShifts(s, i, r, j, "\n", i);
    FindShifts(s, i, r, j, "*/", i + 2);
    assert i + 2 < |s| ==> s[i + 2] == r[j + 2];
  }

  ghost predicate StepsAlike(u: CharClass, d: Dialect, s: string, i: nat, r: string, j: nat)
    requires i < |s| && j < |r|
  {
    match Step(u, d, s, i)
    case Err(e) => Step(u, d, r, j) == Err(e)
    case Ok(t) => Step(u, d, r, j) == Ok(Token(t.kind, j, t.end - i + j))
  }

  lemma DollarStepShifts(u: CharClass, d: Dialect, s: string, i: nat, r: string, j: nat)
    requires SameRest(s, i, r, j) && 0 < i < |s| && 0 < j < |r| && s[i - 1] == r[j - 1] && s[i] == r[j] == '$'
    ensures StepsAlike(u, d, s, i, r, j)
  {
    MatchTagShifts(s, i, r, j);
    if MatchTag(s, i).Some? { DollarShifts(s, i, r, j, MatchTag(s, i).value); }
  }

  lemma QuoteStepShifts(u: CharClass, d: Dialect, s: string, i: nat, r: string, j: nat)
    requires SameRest(s, i, r, j) && i < |s| && j < |r| && s[i] == r[j] && OpensQuote(d, s[i])
    ensures StepsAlike(u, d, s, i, r, j)
  {
    QuoteEndShifts(s, i + 1, r, j + 1, Closer(s[i]));
  }

  /** A step depends on the text from its index on and on the one character before. */
  lemma StepShifts(u: CharClass, d: Dialect, s: string, i: nat, r: string, j: nat)
    requires SameRest(s, i, r, j) && 0 < i < |s| && 0 < j < |r| && s[i - 1] == r[j - 1]
    ensures StepsAlike(u, d, s, i, r, j)
  {
    assert s[i] == r[j];
    if s[i] == '$' {
      DollarStepShifts(u, d, s, i, r, j);
    } else if OpensQuote(d, s[i]) {
      QuoteStepShifts(u, d, s, i, r, j);
    } else {
      CommentShifts(s, i, r, j);
      assert i + 1 < |s| ==> s[i + 1] == r[j + 1];
      assert i + 2 < |s| ==> s[i + 2] == r[j + 2];
    }
  }

  lemma {:induction false} MaskFromShifts(u: CharClass, d: Dialect, s: string, i: nat, r: string, j: nat)
    requires SameRest(s, i, r, j) && 0 < i && 0 < j && s[i - 1] == r[j - 1]
    ensures MaskFrom(u, d, s, i) == MaskFrom(u, d, r, j)
    decreases |s| - i
  {
    if i < |s| {
      StepShifts(u, d, s, i, r, j);
      MaskFromStep(u, d, s, i);
      MaskFromStep(u, d, r, j);
      var step := Step(u, d, s, i);
      if step.Ok? {
        var e, f := step.value.end, step.value.end - i + j;
        assert s[i] == r[j] && s[e - 1] == r[f - 1];
        MaskFromShifts(u, d, s, e, r, f);
      }
    }
  }

  // --- together ---------------------------------------------------------------------------------

  lemma QuoteIsSkipped(u: CharClass, d: Dialect, p: string, open: char, payload: string, rest: string)
    requires OpensQuote(d, open) && '\\' !in payload
    requires rest == [] || rest[0] != Closer(open)
    ensures var q := QuoteText(open, payload);
            var s := p + q + rest;
            Step(u, d, s, |p|) == Ok(Token(Quoted, |p|, |p + q|)) && s[|p + q| - 1] == Closer(open)
  {
    var q := QuoteText(open, payload);
    var s := p + q + rest;
    var t := Token(Quoted, |p|, |p + q|);
    assert s[|p|..|p + q|] == q && s[|p|] == q[0] == open;
    assert rest != [] ==> s[|p + q|] == rest[0];
    assert s[|p + q| - 1] == q[|q| - 1];
    assert IsQuoted(d, s, t.start, t.end);
    StepIff(u, d, s, |p|, t);
  }

  lemma FrameAgrees(p: string, q: string, q': string, rest: string)
    requires q != [] && q' != [] && q[0] == q'[0]
    ensures SameUpTo(p + q + rest, p + q' + rest, |p|)
    ensures SameRest(p + q + rest, |p + q|, p + q' + rest, |p + q'|)
  {
  }

  /** `s` and `r` agree up to a quote at `n`, and again after it: from `i` and from `j`. */
  ghost predicate DifferInOneQuote(u: CharClass, d: Dialect, s: string, r: string, n: nat, i: nat, j: nat) {
    && SameUpTo(s, r, n) && OpensQuote(d, s[n])
    && n < i <= |s| && n < j <= |r| && SameRest(s, i, r, j) && s[i - 1] == r[j - 1]
    && Step(u, d, s, n) == Ok(Token(Quoted, n, i)) && Step(u, d, r, n) == Ok(Token(Quoted, n, j))
  }

  lemma QuoteDoesNotMatter(u: CharClass, d: Dialect, s: string, r: string, done: seq<Token>, n: nat, i: nat, j: nat)
    requires DifferInOneQuote(u, d, s, r, n, i, j) && Covers(u, d, s, done, n)
    ensures Mask(u, d, s) == Mask(u, d, r)
  {
    MaskFromShifts(u, d, s, i, r, j);
    MaskFromStep(u, d, s, n);
    MaskFromStep(u, d, r, n);
    CoversIsLocal(u, d, s, r, done, n, n);
    MaskAfter(u, d, s, done, n);
    MaskAfter(u, d, r, done, n);
  }

  lemma PayloadsDiffer(u: CharClass, d: Dialect, p: string, open: char, x: string, y: string, rest: string)
    requires OpensQuote(d, open) && '\\' !in x && '\\' !in y
    requires rest == [] || rest[0] != Closer(open)
    ensures var q, q' := QuoteText(open, x), QuoteText(open, y);
            DifferInOneQuote(u, d, p + q + rest, p + q' + rest, |p|, |p + q|, |p + q'|)
  {
    FrameAgrees(p, QuoteText(open, x), QuoteText(open, y), rest);
    QuoteIsSkipped(u, d, p, open, x, rest);
    QuoteIsSkipped(u, d, p, open, y, rest);
  }

  /** Replacing the payload of a quoted section by any other one without a backslash leaves the
      mask, or the refusal, exactly as it was. */
  lemma PayloadDoesNotMatter(u: CharClass, d: Dialect, p: string, done: seq<Token>, open: char, x: string,
                             y: string, rest: string)
    requires OpensQuote(d, open) && '\\' !in x && '\\' !in y
    requires rest == [] || rest[0] != Closer(open)
    requires Covers(u, d, p + QuoteText(open, x) + rest, done, |p|)
    ensures Mask(u, d, p + QuoteText(open, x) + rest) == Mask(u, d, p + QuoteText(open, y) + rest)
  {
    var q, q' := QuoteText(open, x), QuoteText(open, y);
    PayloadsDiffer(u, d, p, open, x, y, rest);
    QuoteDoesNotMatter(u, d, p + q + rest, p + q' + rest, done, |p|, |p + q|, |p + q'|);
  }
}
