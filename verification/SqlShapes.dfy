/** What the mask makes of each shape of text, spelled out in characters: an account of the scanner that
    uses none of its notions, so that a character too many or too few in one of them shows. */
module SqlShapes {
  import opened Results
  import opened SqlText
  import opened SqlTokens
  import opened SqlScanner
  import opened SqlSections
  import opened SqlPayload

  /** What the mask of a text is when its first section becomes `out` and `rest` follows. */
  function Behind(out: string, rest: Result<string, Rejection>): Result<string, Rejection> {
    match rest
    case Ok(m) => Ok(out + m)
    case Err(e) => Err(e)
  }

  // --- a text from its first section on -------------------------------------------------------------

  lemma NothingIsNothing(u: CharClass, d: Dialect)
    ensures Mask(u, d, "") == Ok("")
  {
  }

  /** A step in the middle of a text is the first step of what is left, unless a word is before a dollar. */
  lemma StepFromStart(u: CharClass, d: Dialect, s: string, i: nat, rest: string)
    requires 0 < i < |s| && s[i..] == rest && (rest[0] == '$' ==> !u.IsWord(s[i - 1]))
    ensures StepsAlike(u, d, s, i, rest, 0)
  {
    assert SameRest(s, i, rest, 0);
    assert s[i] == rest[0] && (i + 1 < |s| ==> s[i + 1] == rest[1]) && (i + 2 < |s| ==> s[i + 2] == rest[2]);
    if s[i] == '$' {
      MatchTagShifts(s, i, rest, 0);
      if MatchTag(s, i).Some? { DollarShifts(s, i, rest, 0, MatchTag(s, i).value); }
    } else if OpensQuote(d, s[i]) {
      QuoteStepShifts(u, d, s, i, rest, 0);
    } else {
      CommentShifts(s, i, rest, 0);
    }
  }

  lemma MaskFromStart(u: CharClass, d: Dialect, s: string, i: nat, rest: string)
    requires 0 < i <= |s| && s[i..] == rest && (rest != "" && rest[0] == '$' ==> !u.IsWord(s[i - 1]))
    ensures MaskFrom(u, d, s, i) == Mask(u, d, rest)
  {
    if i < |s| {
      StepFromStart(u, d, s, i, rest);
      MaskFromStep(u, d, s, i);
      MaskFromStep(u, d, rest, 0);
      var step := Step(u, d, s, i);
      if step.Ok? {
        var e := step.value.end;
        assert s[i] == rest[0] && s[e - 1] == rest[e - i - 1];
        MaskFromShifts(u, d, s, e, rest, e - i);
      }
    }
  }

  lemma FirstThenRest(u: CharClass, d: Dialect, s: string, t: Token, rest: string)
    requires s != "" && Step(u, d, s, 0) == Ok(t) && s[t.end..] == rest
    requires rest != "" && rest[0] == '$' ==> !u.IsWord(s[t.end - 1])
    ensures Mask(u, d, s) == Behind([Glyph(s, t)], Mask(u, d, rest))
  {
    MaskFromStart(u, d, s, t.end, rest);
    MaskFromStep(u, d, s, 0);
  }

  // --- code -----------------------------------------------------------------------------------------

  /** A character with which no section opens is kept: any but these, one dash, a slash without a star,
      a # anywhere but in MySQL, a bracket anywhere but in SQL Server. */
  lemma CodeIsKept(u: CharClass, d: Dialect, c: char, rest: string)
    requires || c !in "-#/'\"`[$"
             || (c == '-' && (rest == "" || rest[0] != '-'))
             || (c == '/' && (rest == "" || rest[0] != '*'))
             || (c == '#' && d != MySql)
             || (c == '[' && d != MsSql)
    requires rest != "" && rest[0] == '$' ==> !(u.isAlnum(c) || c == '_')
    ensures Mask(u, d, [c] + rest) == Behind([c], Mask(u, d, rest))
  {
    var s := [c] + rest;
    assert s[0] == c && (|s| > 1 ==> s[1] == rest[0]) && s[1..] == rest;
    FirstThenRest(u, d, s, Token(Code, 0, 1), rest);
  }

  /** A dollar behind a letter, a digit or an underscore opens nothing. */
  lemma DollarInWordIsKept(u: CharClass, d: Dialect, c: char, rest: string)
    requires Sane(u) && c !in "-#/'\"`[$" && (u.isAlnum(c) || c == '_')
    ensures Mask(u, d, [c] + "$" + rest) == Behind([c] + "$", Mask(u, d, rest))
  {
    var s := [c] + "$" + rest;
    assert s[0] == c && s[1] == '$' && s[2..] == rest;
    MaskFromStart(u, d, s, 2, rest);
    MaskFromStep(u, d, s, 1);
    MaskFromStep(u, d, s, 0);
    assert Step(u, d, s, 0) == Ok(Token(Code, 0, 1)) && Step(u, d, s, 1) == Ok(Token(Code, 1, 2));
    if Mask(u, d, rest).Ok? {
      assert [c] + (['$'] + Mask(u, d, rest).value) == [c] + "$" + Mask(u, d, rest).value;
    }
  }

  // --- quotes -----------------------------------------------------------------------------------------

  /** What ends quoted text: its first closing quote that is not doubled. */
  lemma {:induction false} QuoteEndsAtFirst(s: string, j: nat, close: char, b: nat)
    requires j < b <= |s| && s[b - 1] == close && (b < |s| ==> s[b] != close)
    requires forall k | j <= k < b - 1 :: s[k] != close && s[k] != '\\'
    requires close != '\\'
    ensures QuoteEnd(s, j, close) == Ok(b)
    decreases b - j
  {
    if j < b - 1 {
      QuoteEndsAtFirst(s, j + 1, close, b);
    }
  }

  lemma QuotedIsMasked(u: CharClass, d: Dialect, open: char, close: char, payload: string, tail: string)
    requires Sane(u) && ((open in "'\"`" && close == open) || (d == MsSql && open == '[' && close == ']'))
    requires close !in payload && '\\' !in payload
    requires tail != "" ==> tail[0] != close
    ensures Mask(u, d, [open] + payload + [close] + tail) == Behind("?", Mask(u, d, tail))
  {
    var s, b := [open] + payload + [close] + tail, |payload| + 2;
    assert forall k | 1 <= k < b - 1 :: s[k] == payload[k - 1];
    assert s[b - 1] == close && s[b..] == tail && (b < |s| ==> s[b] == tail[0]);
    QuoteEndsAtFirst(s, 1, close, b);
    FirstThenRest(u, d, s, Token(Quoted, 0, b), tail);
  }

  lemma {:induction false} QuoteGoesOn(s: string, j: nat, close: char, k: nat)
    requires j <= k < |s| && (forall i | j <= i < k :: s[i] != close && s[i] != '\\') && close != '\\'
    ensures QuoteEnd(s, j, close) == QuoteEnd(s, k, close)
    decreases k - j
  {
    if j < k {
      QuoteGoesOn(s, j + 1, close, k);
    }
  }

  /** A doubled closing quote does not end the text. */
  lemma DoubledQuoteIsPayload(u: CharClass, d: Dialect, open: char, close: char, x: string, y: string, tail: string)
    requires Sane(u) && ((open in "'\"`" && close == open) || (d == MsSql && open == '[' && close == ']'))
    requires close !in x + y && '\\' !in x + y
    requires tail != "" ==> tail[0] != close
    ensures Mask(u, d, [open] + x + [close, close] + y + [close] + tail) == Behind("?", Mask(u, d, tail))
  {
    var s, m := [open] + x + [close, close] + y + [close] + tail, |x| + 1;
    var b := m + 2 + |y| + 1;
    assert forall k | 1 <= k < m :: s[k] == x[k - 1] == (x + y)[k - 1];
    assert forall k | m + 2 <= k < b - 1 :: s[k] == y[k - m - 2] == (x + y)[k - 2 - 1];
    assert s[m] == close && s[m + 1] == close && s[b - 1] == close && s[b..] == tail && (b < |s| ==> s[b] == tail[0]);
    QuoteGoesOn(s, 1, close, m);
    QuoteEndsAtFirst(s, m + 2, close, b);
    assert QuoteEnd(s, m, close) == QuoteEnd(s, m + 2, close);
    FirstThenRest(u, d, s, Token(Quoted, 0, b), tail);
  }

  /** Backslashes in quoted text and quotes that are not closed are refused. */
  lemma QuotesAreRefused(u: CharClass, d: Dialect, open: char, close: char, payload: string, rest: string)
    requires (open in "'\"`" && close == open) || (d == MsSql && open == '[' && close == ']')
    requires close !in payload && '\\' !in payload
    ensures Mask(u, d, [open] + payload + "\\" + rest) == Err(BackslashInQuotes)
    ensures Mask(u, d, [open] + payload) == Err(UnterminatedQuote)
  {
    var s, m := [open] + payload + "\\" + rest, |payload| + 1;
    assert forall k | 1 <= k < m :: s[k] == payload[k - 1];
    QuoteGoesOn(s, 1, close, m);
    MaskFromStep(u, d, s, 0);
    var r := [open] + payload;
    assert forall k | 1 <= k < |r| :: r[k] == payload[k - 1];
    NoCloseIsUnterminated(r, 1, close);
    MaskFromStep(u, d, r, 0);
  }

  lemma {:induction false} NoCloseIsUnterminated(s: string, j: nat, close: char)
    requires forall k | j <= k < |s| :: s[k] != close && s[k] != '\\'
    ensures QuoteEnd(s, j, close) == Err(UnterminatedQuote)
    decreases |s| - j
  {
    if j < |s| {
      NoCloseIsUnterminated(s, j + 1, close);
    }
  }

  // --- comments -----------------------------------------------------------------------------------------

  lemma LineIsMasked(u: CharClass, d: Dialect, opener: string, text: string, tail: string)
    requires opener == "--" || (opener == "#" && d == MySql)
    requires '\n' !in text && (tail == "" || tail[0] == '\n')
    requires d == MySql && opener == "--" ==> text == "" || text[0] in " \t\r"
    ensures Mask(u, d, opener + text + tail) == Behind(" ", Mask(u, d, tail))
  {
    var s, b := opener + text + tail, |opener| + |text|;
    assert s[0] == opener[0] && forall k | |opener| <= k < b :: s[k] == text[k - |opener|];
    assert opener == "--" ==> s[1] == '-';
    assert s[b..] == tail && (b < |s| ==> s[b] == tail[0]);
    assert opener == "--" && |s| > 2 ==> s[2] == (text + tail)[0];
    LineEndIff(s, 0, b);
    FirstThenRest(u, d, s, Token(Comment, 0, b), tail);
  }

  /** MySQL needs a blank after two dashes, and one of just these four. */
  lemma DashesNeedABlank(u: CharClass, text: string)
    requires text != "" && text[0] !in " \t\r\n"
    ensures Mask(u, MySql, "--" + text) == Err(SpaceAfterDashes)
  {
    var s := "--" + text;
    assert s[0] == '-' && s[1] == '-' && s[2] == text[0];
    MaskFromStep(u, MySql, s, 0);
  }

  /** A block comment ends with the first closing pair, which may share no character with the opening. */
  lemma BlockIsMasked(u: CharClass, d: Dialect, text: string, tail: string)
    requires text != "" ==> text[0] != '!'
    requires forall k | 0 <= k < |text| - 1 :: text[k] == '*' ==> text[k + 1] != '/'
    requires Sane(u)
    ensures Mask(u, d, "/*" + text + "*/" + tail) == Behind(" ", Mask(u, d, tail))
  {
    var s, b := "/*" + text + "*/" + tail, |text| + 4;
    assert s[0] == '/' && s[1] == '*' && s[b - 2] == '*' && s[b - 1] == '/' && s[b..] == tail;
    assert forall k | 2 <= k < b - 2 :: s[k] == text[k - 2];
    BlockCommentIff(s, 0, b);
    FirstThenRest(u, d, s, Token(Comment, 0, b), tail);
  }

  /** Comments that MySQL runs are refused. */
  lemma RunCommentIsRefused(u: CharClass, d: Dialect, text: string)
    ensures Mask(u, d, "/*!" + text) == Err(ExecutableComment)
  {
    var s := "/*!" + text;
    assert s[0] == '/' && s[1] == '*' && s[2] == '!';
    MaskFromStep(u, d, s, 0);
  }

  /** And so are comments that are not closed. */
  lemma OpenBlockIsRefused(u: CharClass, d: Dialect, text: string)
    requires text != "" ==> text[0] != '!'
    requires forall k | 0 <= k < |text| - 1 :: text[k] == '*' ==> text[k + 1] != '/'
    ensures Mask(u, d, "/*" + text) == Err(UnterminatedComment)
  {
    var s := "/*" + text;
    assert s[0] == '/' && s[1] == '*' && forall k | 2 <= k < |s| :: s[k] == text[k - 2];
    FindIsFirst(s, "*/", 2);
    forall k: nat | 2 <= k ensures !OccursAt(s, "*/", k) { CloseIsPair(s, k); }
    MaskFromStep(u, d, s, 0);
  }

  lemma CloseIsPair(s: string, k: nat)
    ensures OccursAt(s, "*/", k) ==> k + 1 < |s| && s[k] == '*' && s[k + 1] == '/'
  {
    if OccursAt(s, "*/", k) {
      assert s[k..k + 2][0] == s[k] && s[k..k + 2][1] == s[k + 1];
    }
  }

  // --- dollars -----------------------------------------------------------------------------------------

  /** The pattern matches between two dollars exactly the names in capital and small letters and
      underscores. */
  lemma MatchTagSpelled(s: string, i: nat, e: nat)
    requires i < |s| && s[i] == '$'
    ensures MatchTag(s, i) == Some(e) <==>
            i + 2 <= e <= |s| && s[e - 1] == '$'
            && forall k | i < k < e - 1 :: 'A' <= s[k] <= 'Z' || 'a' <= s[k] <= 'z' || s[k] == '_'
  {
    MatchTagIff(s, i, e);
  }

  /** A text that opens with a tag: where the tag ends, and where its section does. */
  lemma OpensWithTag(s: string, name: string, rest: string)
    requires forall k | 0 <= k < |name| :: 'A' <= name[k] <= 'Z' || 'a' <= name[k] <= 'z' || name[k] == '_'
    requires s == "$" + name + "$" + rest
    ensures s != "" && s[0] == '$' && MatchTag(s, 0) == Some(|name| + 2) && s[0..|name| + 2] == "$" + name + "$"
  {
    var e := |name| + 2;
    assert s[e - 1] == '$' && forall k | 0 < k < e - 1 :: s[k] == name[k - 1];
    MatchTagSpelled(s, 0, e);
  }

  /** `part` is somewhere in `text`. */
  ghost predicate Has(text: string, part: string) {
    exists a: string, b: string :: text == a + part + b
  }

  lemma HasAt(text: string, part: string, k: nat)
    requires k + |part| <= |text| && text[k..k + |part|] == part
    ensures Has(text, part)
  {
    assert text == text[..k] + part + text[k + |part|..];
  }

  /** Text between two copies of a tag, the second being the first that follows: it does not begin any
      earlier, so it is not in what follows without its last dollar. */
  lemma DollarsAreMasked(u: CharClass, d: Dialect, name: string, body: string, tail: string)
    requires forall k | 0 <= k < |name| :: 'A' <= name[k] <= 'Z' || 'a' <= name[k] <= 'z' || name[k] == '_'
    requires Sane(u) && !Has(body + "$" + name, "$" + name + "$")
    ensures Mask(u, d, "$" + name + "$" + body + "$" + name + "$" + tail) == Behind("?", Mask(u, d, tail))
  {
    var tag := "$" + name + "$";
    var s, b := tag + body + tag + tail, 2 * |tag| + |body|;
    assert s == "$" + name + "$" + body + "$" + name + "$" + tail;
    TaggedStep(u, d, s, tag, name, body, tail);
    assert s[b..] == tail && s[b - 1] == tag[|tag| - 1] == '$';
    FirstThenRest(u, d, s, Token(Quoted, 0, b), tail);
  }

  lemma TaggedStep(u: CharClass, d: Dialect, s: string, tag: string, name: string, body: string, tail: string)
    requires forall k | 0 <= k < |name| :: 'A' <= name[k] <= 'Z' || 'a' <= name[k] <= 'z' || name[k] == '_'
    requires tag == "$" + name + "$" && s == tag + body + tag + tail && !Has(body + "$" + name, tag)
    ensures s != "" && Step(u, d, s, 0) == Ok(Token(Quoted, 0, 2 * |tag| + |body|))
  {
    assert s == "$" + name + "$" + (body + tag + tail);
    OpensWithTag(s, name, body + tag + tail);
    TagIsNext(s, tag, name, body, tail);
    DollarQuoteIff(s, 0, |tag|, 2 * |tag| + |body|);
  }

  lemma TagIsNext(s: string, tag: string, name: string, body: string, tail: string)
    requires tag == "$" + name + "$" && s == tag + body + tag + tail && !Has(body + "$" + name, tag)
    ensures OccursAt(s, tag, |tag| + |body|)
    ensures forall k | |tag| <= k < |tag| + |body| :: !OccursAt(s, tag, k)
  {
    var e, follows := |tag|, body + "$" + name;
    forall k | e <= k < e + |body| ensures !OccursAt(s, tag, k) {
      if OccursAt(s, tag, k) {
        assert s[k..k + e] == follows[k - e..k];
        HasAt(follows, tag, k - e);
      }
    }
  }

  /** A dollar is kept when what follows it is no name with a dollar behind it: the name ends too early,
      or at a character that is neither a dollar nor a letter or an underscore. */
  lemma DollarIsKept(u: CharClass, d: Dialect, name: string, rest: string)
    requires Sane(u)
    requires forall k | 0 <= k < |name| :: 'A' <= name[k] <= 'Z' || 'a' <= name[k] <= 'z' || name[k] == '_'
    requires rest != "" ==>
               rest[0] != '$' && rest[0] != '_' && !('A' <= rest[0] <= 'Z') && !('a' <= rest[0] <= 'z')
    ensures Mask(u, d, "$" + name + rest) == Behind("$", Mask(u, d, name + rest))
  {
    var s := "$" + name + rest;
    assert s[0] == '$' && s[1..] == name + rest && forall k | 0 < k <= |name| :: s[k] == name[k - 1];
    assert rest != "" ==> s[|name| + 1] == rest[0];
    forall e: nat ensures MatchTag(s, 0) != Some(e) { MatchTagSpelled(s, 0, e); }
    FirstThenRest(u, d, s, Token(Code, 0, 1), name + rest);
  }

  /** A tag that is not there a second time is refused. */
  lemma DollarsAreRefused(u: CharClass, d: Dialect, name: string, body: string)
    requires forall k | 0 <= k < |name| :: 'A' <= name[k] <= 'Z' || 'a' <= name[k] <= 'z' || name[k] == '_'
    requires !Has(body, "$" + name + "$")
    ensures Mask(u, d, "$" + name + "$" + body) == Err(UnterminatedDollarQuote)
  {
    var tag := "$" + name + "$";
    var s, e := tag + body, |tag|;
    OpensWithTag(s, name, body);
    FindIsFirst(s, tag, e);
    TagIsNowhere(s, tag, body);
    MaskFromStep(u, d, s, 0);
  }

  lemma TagIsNowhere(s: string, tag: string, body: string)
    requires s == tag + body && !Has(body, tag)
    ensures forall k: nat | |tag| <= k :: !OccursAt(s, tag, k)
  {
    var e := |tag|;
    forall k: nat | e <= k ensures !OccursAt(s, tag, k) {
      if OccursAt(s, tag, k) {
        assert s[k..k + e] == body[k - e..k];
        HasAt(body, tag, k - e);
      }
    }
  }
}
