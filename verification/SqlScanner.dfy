/** The masking scanner of the query validator, and the proof that it finds exactly the
    sections that `SqlTokens` describes. */
module SqlScanner {
  import opened Results
  import opened SqlText
  import opened SqlTokens

  datatype Rejection =
    | SpaceAfterDashes
    | ExecutableComment
    | UnterminatedComment
    | UnterminatedDollarQuote
    | BackslashInQuotes
    | UnterminatedQuote

  // --- the scanner as functions --------------------------------------------------------------

  function SkipToLineEnd(s: string, start: nat): (r: nat)
    requires start < |s| && s[start] != '\n'
    ensures start < r <= |s|
  {
    var end := Find(s, "\n", start);
    FindIsFirst(s, "\n", start);
    assert s[start..start + 1][0] == s[start];
    if end < 0 then |s| else end
  }

  /** Index just past the quoted section whose text continues at `j`. */
  function QuoteEnd(s: string, j: nat, close: char): (r: Result<nat, Rejection>)
    ensures r.Ok? ==> j < r.value <= |s|
    decreases |s| - j
  {
    if j >= |s| then Err(UnterminatedQuote)
    else if s[j] == '\\' then Err(BackslashInQuotes)
    else if s[j] == close then
      if j + 1 < |s| && s[j + 1] == close then QuoteEnd(s, j + 2, close) else Ok(j + 1)
    else QuoteEnd(s, j + 1, close)
  }

  /** First index from `j` on that is not a tag letter. */
  function TagLettersEnd(s: string, j: nat): (r: nat)
    requires j <= |s|
    ensures j <= r <= |s|
    decreases |s| - j
  {
    if j < |s| && IsTagLetter(s[j]) then TagLettersEnd(s, j + 1) else j
  }

  /** The end of the match of the dollar-tag pattern at `i`, if it matches there. */
  function MatchTag(s: string, i: nat): (r: Option<nat>)
    requires i < |s| && s[i] == '$'
    ensures r.Some? ==> i + 2 <= r.value <= |s|
  {
    var j := TagLettersEnd(s, i + 1);
    if j < |s| && s[j] == '$' then Some(j + 1) else None
  }

  /** Index just past the comment that opens with a slash and a star at `i`. */
  function BlockCommentEnd(s: string, i: nat): (r: Result<nat, Rejection>)
    requires PairAt(s, i, '/', '*')
    ensures r.Ok? ==> i < r.value <= |s|
  {
    if i + 2 < |s| && s[i + 2] == '!' then Err(ExecutableComment)
    else
      var end := Find(s, "*/", i + 2);
      if end < 0 then Err(UnterminatedComment) else Ok(end + 2)
  }

  /** Index just past the second copy of the tag `s[i..e]`. */
  function DollarQuoteEnd(s: string, i: nat, e: nat): (r: Result<nat, Rejection>)
    requires i < e <= |s|
    ensures r.Ok? ==> i < r.value <= |s|
  {
    var end := Find(s, s[i..e], e);
    if end < 0 then Err(UnterminatedDollarQuote) else Ok(end + (e - i))
  }

  function SpanTo(kind: Kind, i: nat, end: Result<nat, Rejection>): Result<Token, Rejection> {
    match end
    case Ok(b) => Ok(Token(kind, i, b))
    case Err(e) => Err(e)
  }

  /** The token the scanner takes at `i`, or why it refuses. */
  function Step(u: CharClass, d: Dialect, s: string, i: nat): (r: Result<Token, Rejection>)
    requires i < |s|
    ensures r.Ok? ==> r.value.start == i < r.value.end <= |s|
  {
    var c := s[i];
    if PairAt(s, i, '-', '-') then
      if d.MySql? && i + 2 < |s| && s[i + 2] !in " \t\r\n" then Err(SpaceAfterDashes)
      else Ok(Token(Comment, i, SkipToLineEnd(s, i)))
    else if HashAt(d, s, i) then Ok(Token(Comment, i, SkipToLineEnd(s, i)))
    else if PairAt(s, i, '/', '*') then SpanTo(Comment, i, BlockCommentEnd(s, i))
    else if OpensQuote(d, c) then SpanTo(Quoted, i, QuoteEnd(s, i + 1, Closer(c)))
    else if c == '$' && !AfterWord(u, s, i) && MatchTag(s, i).Some? then
      SpanTo(Quoted, i, DollarQuoteEnd(s, i, MatchTag(s, i).value))
    else Ok(Token(Code, i, i + 1))
  }

  function Scan(u: CharClass, d: Dialect, s: string, i: nat): Result<seq<Token>, Rejection>
    requires i <= |s|
    decreases |s| - i
  {
    if i == |s| then Ok([])
    else
      match Step(u, d, s, i)
      case Err(e) => Err(e)
      case Ok(t) =>
        match Scan(u, d, s, t.end)
        case Err(e) => Err(e)
        case Ok(rest) => Ok([t] + rest)
  }

  /** What masking `s[i..]` appends: one character per token. */
  function MaskFrom(u: CharClass, d: Dialect, s: string, i: nat): Result<string, Rejection>
    requires i <= |s|
    decreases |s| - i
  {
    if i == |s| then Ok([])
    else
      match Step(u, d, s, i)
      case Err(e) => Err(e)
      case Ok(t) => Prepend([Glyph(s, t)], MaskFrom(u, d, s, t.end))
  }

  function Prepend(out: string, rest: Result<string, Rejection>): Result<string, Rejection> {
    match rest
    case Err(e) => Err(e)
    case Ok(text) => Ok(out + text)
  }

  lemma MaskFromStep(u: CharClass, d: Dialect, s: string, i: nat)
    requires i < |s|
    ensures match Step(u, d, s, i)
            case Err(e) => MaskFrom(u, d, s, i) == Err(e)
            case Ok(t) => MaskFrom(u, d, s, i) == Prepend([Glyph(s, t)], MaskFrom(u, d, s, t.end))
  {
  }

  /** The SQL with comments replaced by a space and quoted text by a question mark. */
  function Mask(u: CharClass, d: Dialect, s: string): Result<string, Rejection> {
    MaskFrom(u, d, s, 0)
  }

  // --- the scanner as the loops that run --------------------------------------------------------

  method SkipQuoted(s: string, start: nat, close: char) returns (r: Result<nat, Rejection>)
    requires start < |s|
    ensures r == QuoteEnd(s, start + 1, close)
  {
    var j := start + 1;
    while j < |s|
      invariant start < j
      invariant QuoteEnd(s, start + 1, close) == QuoteEnd(s, j, close)
      decreases |s| - j
    {
      var ch := s[j];
      if ch == '\\' {
        return Err(BackslashInQuotes);
      }
      if ch == close {
        if j + 1 < |s| && s[j + 1] == close {
          j := j + 2;
          continue;
        }
        return Ok(j + 1);
      }
      j := j + 1;
    }
    return Err(UnterminatedQuote);
  }

  lemma {:induction false} MaskFromIsRenderedScan(u: CharClass, d: Dialect, s: string, i: nat)
    requires i <= |s|
    ensures MaskFrom(u, d, s, i) ==
            match Scan(u, d, s, i) { case Err(e) => Err(e) case Ok(toks) => Ok(Render(s, toks)) }
    decreases |s| - i
  {
    if i == |s| {
      assert Render(s, []) == [];
    } else if Step(u, d, s, i).Ok? {
      var t := Step(u, d, s, i).value;
      MaskFromIsRenderedScan(u, d, s, t.end);
      var rest := Scan(u, d, s, t.end);
      if rest.Ok? {
        assert Render(s, [t] + rest.value) == [Glyph(s, t)] + Render(s, rest.value);
      }
    }
  }

  lemma PrependStep(u: CharClass, d: Dialect, s: string, i: nat, out: string, t: Token)
    requires i < |s| && Step(u, d, s, i) == Ok(t)
    ensures Prepend(out, MaskFrom(u, d, s, i)) == Prepend(out + [Glyph(s, t)], MaskFrom(u, d, s, t.end))
  {
    var rest := MaskFrom(u, d, s, t.end);
    if rest.Ok? {
      assert out + ([Glyph(s, t)] + rest.value) == out + [Glyph(s, t)] + rest.value;
    }
  }

  /** One turn of the loop at `i`: what is appended to the mask and where the index moves. */
  method TakeSection(u: CharClass, d: Dialect, s: string, i: nat) returns (glyph: char, next: Result<nat, Rejection>)
    requires i < |s|
    ensures match Step(u, d, s, i)
            case Ok(t) => next == Ok(t.end) && glyph == Glyph(s, t)
            case Err(e) => next == Err(e)
  {
    var c := s[i];
    if PairAt(s, i, '-', '-') {
      glyph := ' ';
      if d.MySql? && i + 2 < |s| && s[i + 2] !in " \t\r\n" {
        return glyph, Err(SpaceAfterDashes);
      }
      next := Ok(SkipToLineEnd(s, i));
    } else if c == '#' && d.MySql? {
      glyph := ' ';
      next := Ok(SkipToLineEnd(s, i));
    } else if PairAt(s, i, '/', '*') {
      glyph := ' ';
      next := BlockCommentEnd(s, i);
    } else if OpensQuote(d, c) {
      glyph := '?';
      next := SkipQuoted(s, i, if c == '[' then ']' else c);
    } else if c == '$' && !(i > 0 && (u.isAlnum(s[i - 1]) || s[i - 1] == '_')) {
      var tag := MatchTag(s, i);
      if tag.None? {
        glyph, next := c, Ok(i + 1);
      } else {
        glyph, next := '?', DollarQuoteEnd(s, i, tag.value);
      }
    } else {
      glyph, next := c, Ok(i + 1);
    }
  }

  method MaskCommentsAndQuotes(u: CharClass, d: Dialect, s: string) returns (r: Result<string, Rejection>)
    ensures r == Mask(u, d, s)
  {
    var out: string := [];
    var i, n := 0, |s|;
    ghost var whole := MaskFrom(u, d, s, 0);
    assert whole.Ok? ==> out + whole.value == whole.value;
    while i < n
      invariant i <= n
      invariant whole == Prepend(out, MaskFrom(u, d, s, i))
      decreases n - i
    {
      var glyph, next := TakeSection(u, d, s, i);
      if next.Err? {
        return Err(next.error);
      }
      PrependStep(u, d, s, i, out, Step(u, d, s, i).value);
      out := out + [glyph];
      i := next.value;
    }
    assert out + [] == out;
    return Ok(out);
  }
}
