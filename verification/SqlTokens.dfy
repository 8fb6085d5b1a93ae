/** What the masking scanner is supposed to see in a piece of SQL, stated without any scanning:
    comments, quoted sections and plain code, as half-open spans `[start, end)` that tile the text. */
module SqlTokens {
  import opened SqlText

  datatype Dialect = PostgreSql | MySql | MsSql | Sqlite

  datatype Kind = Comment | Quoted | Code
  datatype Token = Token(kind: Kind, start: nat, end: nat)

  // --- what opens a section ----------------------------------------------------------------

  predicate PairAt(s: string, i: nat, c: char, d: char) {
    i + 1 < |s| && s[i] == c && s[i + 1] == d
  }

  predicate HashAt(d: Dialect, s: string, i: nat) {
    d.MySql? && i < |s| && s[i] == '#'
  }

  /** Does `c` open quoted text? */
  predicate OpensQuote(d: Dialect, c: char) {
    c == '\'' || c == '"' || c == '`' || (c == '[' && d.MsSql?)
  }

  function Closer(c: char): char {
    if c == '[' then ']' else c
  }

  predicate IsTagLetter(c: char) {
    'A' <= c <= 'Z' || 'a' <= c <= 'z' || c == '_'
  }

  /** `s[a..e]` is a dollar tag: `$`, ASCII letters and underscores, `$`. */
  predicate TagAt(s: string, a: nat, e: nat) {
    && a + 2 <= e <= |s|
    && s[a] == '$' && s[e - 1] == '$'
    && forall k | a < k < e - 1 :: IsTagLetter(s[k])
  }

  predicate AfterWord(u: CharClass, s: string, a: nat)
    requires a <= |s|
  {
    a > 0 && u.IsWord(s[a - 1])
  }

  // --- the four kinds of section, and code ----------------------------------------------------

  predicate IsLineComment(d: Dialect, s: string, a: nat, b: nat) {
    && a < b <= |s|
    && (HashAt(d, s, a) || (PairAt(s, a, '-', '-') && (d.MySql? && a + 2 < |s| ==> s[a + 2] in " \t\r\n")))
    && (forall k | a <= k < b :: s[k] != '\n')
    && (b < |s| ==> s[b] == '\n')
  }

  predicate IsBlockComment(s: string, a: nat, b: nat) {
    && a + 4 <= b <= |s|
    && PairAt(s, a, '/', '*') && s[a + 2] != '!'
    && PairAt(s, b - 2, '*', '/')
    && forall k | a + 2 <= k < b - 2 :: !PairAt(s, k, '*', '/')
  }

  /** `payload` with every closing quote doubled. */
  function Escape(payload: string, close: char): string {
    if payload == [] then []
    else (if payload[0] == close then [close, close] else [payload[0]]) + Escape(payload[1..], close)
  }

  /** How `payload` is written between `open` and its closing quote. */
  function QuoteText(open: char, payload: string): string {
    [open] + Escape(payload, Closer(open)) + [Closer(open)]
  }

  ghost predicate IsQuoted(d: Dialect, s: string, a: nat, b: nat) {
    && a < b <= |s| && OpensQuote(d, s[a])
    && (b < |s| ==> s[b] != Closer(s[a]))
    && exists payload :: '\\' !in payload && s[a..b] == QuoteText(s[a], payload)
  }

  /** Closed by the first later occurrence of its own tag `s[a..e]`. */
  ghost predicate IsDollarQuoted(u: CharClass, s: string, a: nat, b: nat) {
    && a < b <= |s| && !AfterWord(u, s, a)
    && exists e :: TagAt(s, a, e) && ClosesTag(s, a, e, b)
  }

  predicate ClosesTag(s: string, a: nat, e: nat, b: nat)
    requires a <= e <= |s|
  {
    && e + (e - a) <= b <= |s|
    && OccursAt(s, s[a..e], b - (e - a))
    && forall k | e <= k < b - (e - a) :: !OccursAt(s, s[a..e], k)
  }

  /** No section opens here, so the character is code. */
  ghost predicate IsCode(u: CharClass, d: Dialect, s: string, a: nat) {
    && a < |s|
    && !PairAt(s, a, '-', '-') && !HashAt(d, s, a) && !PairAt(s, a, '/', '*')
    && !OpensQuote(d, s[a])
    && (s[a] == '$' && !AfterWord(u, s, a) ==> forall e :: !TagAt(s, a, e))
  }

  ghost predicate IsToken(u: CharClass, d: Dialect, s: string, t: Token) {
    match t.kind
    case Comment => IsLineComment(d, s, t.start, t.end) || IsBlockComment(s, t.start, t.end)
    case Quoted => IsQuoted(d, s, t.start, t.end) || IsDollarQuoted(u, s, t.start, t.end)
    case Code => IsCode(u, d, s, t.start) && t.end == t.start + 1
  }

  /** `toks` are tokens that cover `s[i..]` with no gap and no overlap. */
  ghost predicate Tokenises(u: CharClass, d: Dialect, s: string, i: nat, toks: seq<Token>)
    decreases |toks|
  {
    if toks == [] then i == |s|
    else
      && toks[0].start == i < toks[0].end <= |s|
      && IsToken(u, d, s, toks[0])
      && Tokenises(u, d, s, toks[0].end, toks[1..])
  }

  /** One character of the mask per token: a space, a question mark, or the code itself. */
  function Glyph(s: string, t: Token): char {
    match t.kind
    case Comment => ' '
    case Quoted => '?'
    case Code => if t.start < |s| then s[t.start] else ' '
  }

  function Render(s: string, toks: seq<Token>): string {
    seq(|toks|, i requires 0 <= i < |toks| => Glyph(s, toks[i]))
  }

  /** Tokens seen by position: each is well formed, and each starts where the one before ended. */
  lemma {:induction false} TokenisesAt(u: CharClass, d: Dialect, s: string, i: nat, toks: seq<Token>, k: nat)
    requires Tokenises(u, d, s, i, toks) && k < |toks|
    ensures toks[k].start < toks[k].end <= |s| && IsToken(u, d, s, toks[k])
    ensures toks[k].start == if k == 0 then i else toks[k - 1].end
    ensures toks[k].end == if k == |toks| - 1 then |s| else toks[k + 1].start
    ensures i <= toks[k].start
    decreases k
  {
    if k > 0 {
      TokenisesAt(u, d, s, toks[0].end, toks[1..], k - 1);
      assert toks[k] == toks[1..][k - 1];
    } else if |toks| > 1 {
      assert toks[1] == toks[1..][0];
    }
  }
}
