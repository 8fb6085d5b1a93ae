/** The scanner takes a token exactly where the text has one: it finds the one tokenisation
    there is, and refuses exactly the texts that have none. */
module SqlSections {
  import opened Results
  import opened SqlText
  import opened SqlTokens
  import opened SqlScanner

  // --- quoted text -------------------------------------------------------------------------

  /** What was skipped is some payload with its closing quotes doubled. */
  lemma {:induction false} QuoteEndSound(s: string, j: nat, close: char, b: nat) returns (payload: string)
    requires QuoteEnd(s, j, close) == Ok(b)
    ensures j < b <= |s| && (b < |s| ==> s[b] != close)
    ensures '\\' !in payload && s[j..b] == Escape(payload, close) + [close]
    decreases |s| - j
  {
    if s[j] == close && !(j + 1 < |s| && s[j + 1] == close) {
      payload := [];
    } else {
      var next := if s[j] == close then j + 2 else j + 1;
      var rest := QuoteEndSound(s, next, close, b);
      payload := [s[j]] + rest;
      assert s[j..b] == s[j..next] + s[next..b];
    }
  }

  /** Writing a payload and skipping it undo each other. */
  lemma {:induction false} QuoteEndComplete(s: string, j: nat, close: char, b: nat, payload: string)
    requires close != '\\' && '\\' !in payload
    requires j < b <= |s| && s[j..b] == Escape(payload, close) + [close]
    requires b < |s| ==> s[b] != close
    ensures QuoteEnd(s, j, close) == Ok(b)
    decreases payload
  {
    var text := s[j..b];
    assert s[j] == text[0];
    if payload != [] {
      var head := if payload[0] == close then [close, close] else [payload[0]];
      assert text == head + (Escape(payload[1..], close) + [close]);
      assert payload[0] == close ==> s[j + 1] == text[1];
      var next := j + |head|;
      assert s[next..b] == text[|head|..];
      QuoteEndComplete(s, next, close, b, payload[1..]);
    }
  }

  lemma QuotedIff(d: Dialect, s: string, a: nat, b: nat)
    requires a < |s| && OpensQuote(d, s[a])
    ensures QuoteEnd(s, a + 1, Closer(s[a])) == Ok(b) <==> IsQuoted(d, s, a, b)
  {
    var close := Closer(s[a]);
    if QuoteEnd(s, a + 1, close) == Ok(b) {
      var payload := QuoteEndSound(s, a + 1, close, b);
      assert s[a..b] == [s[a]] + s[a + 1..b];
      assert s[a..b] == QuoteText(s[a], payload);
    }
    if IsQuoted(d, s, a, b) {
      QuotedSkips(d, s, a, b);
    }
  }

  lemma QuotedSkips(d: Dialect, s: string, a: nat, b: nat)
    requires a < |s| && IsQuoted(d, s, a, b)
    ensures QuoteEnd(s, a + 1, Closer(s[a])) == Ok(b)
  {
    var close := Closer(s[a]);
    var payload :| '\\' !in payload && s[a..b] == QuoteText(s[a], payload);
    assert s[a..b][1..] == Escape(payload, close) + [close];
    assert s[a + 1..b] == s[a..b][1..];
    QuoteEndComplete(s, a + 1, close, b, payload);
  }

  // --- comments ------------------------------------------------------------------------------

  lemma LineEndIff(s: string, a: nat, b: nat)
    requires a < |s| && s[a] != '\n'
    ensures b == SkipToLineEnd(s, a) <==>
            a < b <= |s| && (forall k | a <= k < b :: s[k] != '\n') && (b < |s| ==> s[b] == '\n')
  {
    var end := Find(s, "\n", a);
    FindIsFirst(s, "\n", a);
    forall k: nat | k < |s| ensures OccursAt(s, "\n", k) <==> s[k] == '\n' {
      assert s[k..k + 1] == [s[k]];
    }
  }

  lemma BlockCommentIff(s: string, a: nat, b: nat)
    requires PairAt(s, a, '/', '*')
    ensures BlockCommentEnd(s, a) == Ok(b) <==> IsBlockComment(s, a, b)
  {
    var end := Find(s, "*/", a + 2);
    FindIsFirst(s, "*/", a + 2);
    forall k: nat ensures OccursAt(s, "*/", k) <==> PairAt(s, k, '*', '/') {
      if k + 2 <= |s| { assert s[k..k + 2] == [s[k], s[k + 1]]; }
    }
    if IsBlockComment(s, a, b) {
      assert OccursAt(s, "*/", b - 2);
    }
  }

  // --- dollar quotes -------------------------------------------------------------------------

  lemma {:induction false} TagLettersEndIsFirst(s: string, j: nat)
    requires j <= |s|
    ensures forall k | j <= k < TagLettersEnd(s, j) :: IsTagLetter(s[k])
    ensures TagLettersEnd(s, j) < |s| ==> !IsTagLetter(s[TagLettersEnd(s, j)])
    decreases |s| - j
  {
    if j < |s| && IsTagLetter(s[j]) {
      TagLettersEndIsFirst(s, j + 1);
    }
  }

  /** There is at most one tag at a place, and it is the one the pattern matches. */
  lemma MatchTagIff(s: string, a: nat, e: nat)
    requires a < |s| && s[a] == '$'
    ensures MatchTag(s, a) == Some(e) <==> TagAt(s, a, e)
  {
    TagLettersEndIsFirst(s, a + 1);
    var j := TagLettersEnd(s, a + 1);
    if TagAt(s, a, e) {
      assert !IsTagLetter(s[e - 1]);
    }
  }

  lemma DollarQuoteIff(s: string, a: nat, e: nat, b: nat)
    requires a < e <= |s|
    ensures DollarQuoteEnd(s, a, e) == Ok(b) <==> ClosesTag(s, a, e, b)
  {
    FindIsFirst(s, s[a..e], e);
    if ClosesTag(s, a, e, b) {
      assert OccursAt(s, s[a..e], b - (e - a));
    }
  }

  // --- all tokens ----------------------------------------------------------------------------

  /** Without a tag a dollar is code; with one, the section ends with the tag's next copy. */
  lemma DollarSectionIff(u: CharClass, s: string, i: nat, b: nat)
    requires i < |s| && s[i] == '$' && !AfterWord(u, s, i)
    ensures MatchTag(s, i).None? <==> forall e :: !TagAt(s, i, e)
    ensures MatchTag(s, i).None? ==> !IsDollarQuoted(u, s, i, b)
    ensures MatchTag(s, i).Some? ==>
              (DollarQuoteEnd(s, i, MatchTag(s, i).value) == Ok(b) <==> IsDollarQuoted(u, s, i, b))
  {
    forall e: nat ensures MatchTag(s, i) == Some(e) <==> TagAt(s, i, e) { MatchTagIff(s, i, e); }
    if MatchTag(s, i).Some? {
      var e := MatchTag(s, i).value;
      assert TagAt(s, i, e);
      DollarQuoteIff(s, i, e, b);
    }
  }

  lemma DollarStepIff(u: CharClass, d: Dialect, s: string, i: nat, t: Token)
    requires i < |s| && s[i] == '$'
    ensures Step(u, d, s, i) == Ok(t) <==> t.start == i && IsToken(u, d, s, t)
  {
    if !AfterWord(u, s, i) {
      DollarSectionIff(u, s, i, t.end);
    }
  }

  lemma CommentStepIff(u: CharClass, d: Dialect, s: string, i: nat, t: Token)
    requires i < |s| && s[i] != '$' && !OpensQuote(d, s[i])
    ensures Step(u, d, s, i) == Ok(t) <==> t.start == i && IsToken(u, d, s, t)
  {
    if PairAt(s, i, '/', '*') {
      BlockCommentIff(s, i, t.end);
    } else if PairAt(s, i, '-', '-') || HashAt(d, s, i) {
      LineEndIff(s, i, t.end);
    }
  }

  /** One step of the scanner takes a span exactly when that span is a token. */
  lemma StepIff(u: CharClass, d: Dialect, s: string, i: nat, t: Token)
    requires i < |s|
    ensures Step(u, d, s, i) == Ok(t) <==> t.start == i && IsToken(u, d, s, t)
  {
    if s[i] == '$' {
      DollarStepIff(u, d, s, i, t);
    } else if OpensQuote(d, s[i]) {
      QuotedIff(d, s, i, t.end);
    } else {
      CommentStepIff(u, d, s, i, t);
    }
  }

  lemma {:induction false} ScanIff(u: CharClass, d: Dialect, s: string, i: nat, toks: seq<Token>)
    requires i <= |s|
    ensures Scan(u, d, s, i) == Ok(toks) <==> Tokenises(u, d, s, i, toks)
    decreases |s| - i
  {
    if i < |s| {
      if toks != [] {
        StepIff(u, d, s, i, toks[0]);
        if i < toks[0].end <= |s| {
          ScanIff(u, d, s, toks[0].end, toks[1..]);
          assert toks == [toks[0]] + toks[1..];
        }
      }
      if Scan(u, d, s, i) == Ok(toks) {
        var t := Step(u, d, s, i).value;
        assert toks[0] == t && toks[1..] == Scan(u, d, s, t.end).value;
      }
    }
  }

  /** The scanner accepts exactly the texts that can be cut into comments, quoted sections and
      code, there is one way to do it, and the mask has one character for each piece. */
  lemma MaskIff(u: CharClass, d: Dialect, s: string, m: string)
    ensures Mask(u, d, s) == Ok(m) <==> exists toks :: Tokenises(u, d, s, 0, toks) && m == Render(s, toks)
    ensures forall a, b | Tokenises(u, d, s, 0, a) && Tokenises(u, d, s, 0, b) :: a == b
  {
    MaskFromIsRenderedScan(u, d, s, 0);
    forall toks ensures Scan(u, d, s, 0) == Ok(toks) <==> Tokenises(u, d, s, 0, toks) {
      ScanIff(u, d, s, 0, toks);
    }
    if Mask(u, d, s) == Ok(m) {
      assert Tokenises(u, d, s, 0, Scan(u, d, s, 0).value);
    }
  }

  // --- how far a token looks ----------------------------------------------------------------

  /** `s` and `r` agree on their first `n` characters, and on the next one if `r` has one. */
  ghost predicate AgreePast(s: string, r: string, n: nat) {
    && n <= |s| && n <= |r|
    && (forall k | 0 <= k < n :: s[k] == r[k])
    && (n < |r| ==> n < |s| && s[n] == r[n])
  }

  lemma CommentIsLocal(d: Dialect, s: string, r: string, a: nat, b: nat)
    requires AgreePast(s, r, b)
    ensures IsLineComment(d, s, a, b) ==> IsLineComment(d, r, a, b)
    ensures IsBlockComment(s, a, b) ==> IsBlockComment(r, a, b)
  {
    if IsLineComment(d, s, a, b) && b < |s| {
      assert s[b] == '\n';
    }
    if IsBlockComment(s, a, b) {
      forall k | a + 2 <= k < b - 2 ensures !PairAt(r, k, '*', '/') {
        assert s[k] == r[k] && s[k + 1] == r[k + 1] && !PairAt(s, k, '*', '/');
      }
    }
  }

  lemma QuotedIsLocal(u: CharClass, d: Dialect, s: string, r: string, a: nat, b: nat)
    requires AgreePast(s, r, b)
    ensures IsQuoted(d, s, a, b) ==> IsQuoted(d, r, a, b)
    ensures IsDollarQuoted(u, s, a, b) ==> IsDollarQuoted(u, r, a, b)
  {
    if a < b {
      assert s[a..b] == r[a..b];
    }
    if IsDollarQuoted(u, s, a, b) {
      var e: nat :| TagAt(s, a, e) && ClosesTag(s, a, e, b);
      assert s[a..e] == r[a..e];
      forall k: nat | k + (e - a) <= b ensures OccursAt(s, s[a..e], k) <==> OccursAt(r, r[a..e], k) {
        assert s[k..k + (e - a)] == r[k..k + (e - a)];
      }
      assert TagAt(r, a, e) && ClosesTag(r, a, e, b);
    }
  }
}
