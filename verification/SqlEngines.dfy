/** The scanner against the engines that the SQL is sent to. How an engine reads comments and quotes is a
    record of rules; for any record, an accepted text is cut into the same tokens by the scanner and by
    the engine if and only if none of its tokens is of a kind on which their rules part. */
module SqlEngines {
  import opened Results
  import opened SqlText
  import opened SqlTokens
  import opened SqlScanner
  import opened SqlSections
  import opened SqlMaskLaws

  // --- how an engine reads ------------------------------------------------------------------------

  datatype Rules = Rules(
    endsLine: char -> bool,            // ends a line comment
    opensDashes: Option<char> -> bool, // may follow the two dashes of a comment; None is the end
    hashes: bool,                      // does # open a line comment?
    nests: bool,                       // do block comments nest?
    runs: set<string>,                 // a block comment that begins like this is run as code
    quotes: char -> bool,              // opens quoted text, which a doubled closing character does not end
    escapes: char -> bool,             // in text quoted by this, a backslash takes the next character along
    dollars: bool,                     // are there dollar quotes?
    opensAfter: string -> bool)        // may a dollar quote follow this code?

  function CharAt(s: string, i: nat): Option<char> {
    if i < |s| then Some(s[i]) else None
  }

  predicate OpensLine(e: Rules, s: string, i: nat)
    requires i < |s|
  {
    (PairAt(s, i, '-', '-') && e.opensDashes(CharAt(s, i + 2))) || (s[i] == '#' && e.hashes)
  }

  predicate OpensBlock(e: Rules, s: string, i: nat) {
    PairAt(s, i, '/', '*') && forall w | w in e.runs :: !OccursAt(s, w, i + 2)
  }

  function LineEnd(e: Rules, s: string, i: nat): (r: nat)
    requires i <= |s|
    ensures i <= r <= |s|
    decreases |s| - i
  {
    if i == |s| || e.endsLine(s[i]) then i else LineEnd(e, s, i + 1)
  }

  /** The end of a comment that nests, read from `j` on with `depth` comments open. */
  function NestedEnd(s: string, j: nat, depth: nat): (r: Option<nat>)
    requires depth > 0
    ensures r.Some? ==> j < r.value <= |s|
    decreases |s| - j
  {
    if j + 1 >= |s| then None
    else if PairAt(s, j, '/', '*') then NestedEnd(s, j + 2, depth + 1)
    else if PairAt(s, j, '*', '/') then if depth == 1 then Some(j + 2) else NestedEnd(s, j + 2, depth - 1)
    else NestedEnd(s, j + 1, depth)
  }

  function BlockEnd(e: Rules, s: string, i: nat): (r: Option<nat>)
    ensures r.Some? ==> i < r.value <= |s|
  {
    if e.nests then NestedEnd(s, i + 2, 1)
    else
      var end := Find(s, "*/", i + 2);
      if end < 0 then None else Some(end + 2)
  }

  function QuotedEnd(s: string, j: nat, close: char, escapes: bool): (r: Option<nat>)
    ensures r.Some? ==> j < r.value <= |s|
    decreases |s| - j
  {
    if j >= |s| then None
    else if escapes && s[j] == '\\' then QuotedEnd(s, j + 2, close, escapes)
    else if s[j] == close then
      if j + 1 < |s| && s[j + 1] == close then QuotedEnd(s, j + 2, close, escapes) else Some(j + 1)
    else QuotedEnd(s, j + 1, close, escapes)
  }

  /** The name in a tag is spelled like any other name, without dollars. */
  predicate StartsName(c: char) {
    IsTagLetter(c) || c as int >= 128
  }

  predicate InName(c: char) {
    StartsName(c) || '0' <= c <= '9'
  }

  function NameEnd(s: string, j: nat): (r: nat)
    requires j <= |s|
    ensures j <= r <= |s|
    decreases |s| - j
  {
    if j < |s| && InName(s[j]) then NameEnd(s, j + 1) else j
  }

  function TagEnd(s: string, i: nat): (r: Option<nat>)
    requires i < |s|
    ensures r.Some? ==> i + 2 <= r.value <= |s|
  {
    var j := NameEnd(s, i + 1);
    if j < |s| && s[j] == '$' && (i + 1 < j ==> StartsName(s[i + 1])) then Some(j + 1) else None
  }

  predicate OpensDollars(e: Rules, s: string, i: nat, run: string)
    requires i < |s|
  {
    e.dollars && e.opensAfter(run) && TagEnd(s, i).Some?
  }

  function Ending(kind: Kind, i: nat, end: Option<nat>): Option<Token> {
    match end
    case Some(b) => Some(Token(kind, i, b))
    case None => None
  }

  /** The token an engine takes at `i`, after the code `run` since the last comment or quoted text;
      nothing if one does not end. */
  function EngineStep(e: Rules, s: string, i: nat, run: string): (r: Option<Token>)
    requires i < |s|
    ensures r.Some? ==> r.value.start == i < r.value.end <= |s|
  {
    if OpensLine(e, s, i) then Some(Token(Comment, i, LineEnd(e, s, i + 1)))
    else if OpensBlock(e, s, i) then Ending(Comment, i, BlockEnd(e, s, i))
    else if s[i] == '$' then
      if !OpensDollars(e, s, i, run) then Some(Token(Code, i, i + 1))
      else
        match DollarQuoteEnd(s, i, TagEnd(s, i).value)
        case Ok(b) => Some(Token(Quoted, i, b))
        case Err(_) => None
    else if e.quotes(s[i]) then Ending(Quoted, i, QuotedEnd(s, i + 1, Closer(s[i]), e.escapes(s[i])))
    else Some(Token(Code, i, i + 1))
  }

  function RunAfter(s: string, run: string, t: Token): string {
    if t.kind.Code? && t.start < |s| then run + [s[t.start]] else ""
  }

  function EngineScan(e: Rules, s: string, i: nat, run: string): Option<seq<Token>>
    requires i <= |s|
    decreases |s| - i
  {
    if i == |s| then Some([])
    else
      match EngineStep(e, s, i, run)
      case None => None
      case Some(t) =>
        match EngineScan(e, s, t.end, RunAfter(s, run, t))
        case None => None
        case Some(rest) => Some([t] + rest)
  }

  // --- where the rules part -------------------------------------------------------------------------

  /** Another comment opens from `j` on, before the last two characters of `s[..b]`. */
  ghost predicate OpensWithin(s: string, j: nat, b: nat) {
    exists k :: j <= k < b - 2 && PairAt(s, k, '/', '*')
  }

  /** A line ends inside the line comment, or goes on behind it. */
  ghost predicate EndsElsewhere(e: Rules, s: string, a: nat, b: nat) {
    (exists k :: a < k < b <= |s| && e.endsLine(s[k])) || (b < |s| && !e.endsLine('\n'))
  }

  /** `s[a..x]` is a dollar tag of an engine's. */
  predicate WideTagAt(s: string, a: nat, x: nat) {
    && a + 2 <= x <= |s|
    && s[a] == '$' && s[x - 1] == '$'
    && (a + 2 < x ==> StartsName(s[a + 1]))
    && forall k | a < k < x - 1 :: InName(s[k])
  }

  /** A token of the scanner's that the engine does not read as that token. */
  ghost predicate Differs(e: Rules, s: string, t: Token, run: string)
    requires t.start < |s|
  {
    match t.kind
    case Comment =>
      if PairAt(s, t.start, '/', '*')
      then (exists w :: w in e.runs && OccursAt(s, w, t.start + 2)) || (e.nests && OpensWithin(s, t.start + 2, t.end))
      else !OpensLine(e, s, t.start) || EndsElsewhere(e, s, t.start, t.end)
    case Quoted =>
      if s[t.start] == '$' then !(e.dollars && e.opensAfter(run)) else !e.quotes(s[t.start])
    case Code =>
      if s[t.start] == '$' then e.dollars && e.opensAfter(run) && exists x :: WideTagAt(s, t.start, x)
      else e.quotes(s[t.start]) || (s[t.start] == '#' && e.hashes)
  }

  // --- comments -----------------------------------------------------------------------------------

  lemma {:induction false} EngineLineEndIff(e: Rules, s: string, i: nat, b: nat)
    requires i <= b <= |s|
    ensures LineEnd(e, s, i) == b <==> (forall k | i <= k < b :: !e.endsLine(s[k])) && (b < |s| ==> e.endsLine(s[b]))
    decreases |s| - i
  {
    if i < |s| && !e.endsLine(s[i]) && i < b {
      EngineLineEndIff(e, s, i + 1, b);
    }
  }

  /** Each open comment takes two characters to close. */
  lemma {:induction false} NestedEndIsLate(s: string, j: nat, depth: nat)
    requires depth > 0
    ensures NestedEnd(s, j, depth).Some? ==> NestedEnd(s, j, depth).value >= j + 2 * depth
    decreases |s| - j
  {
    if j + 1 < |s| {
      if PairAt(s, j, '/', '*') {
        NestedEndIsLate(s, j + 2, depth + 1);
      } else if !PairAt(s, j, '*', '/') {
        NestedEndIsLate(s, j + 1, depth);
      } else if depth > 1 {
        NestedEndIsLate(s, j + 2, depth - 1);
      }
    }
  }

  lemma {:induction false} NothingClosesBefore(s: string, j: nat, depth: nat, b: nat)
    requires depth > 0 && j + 2 <= b && forall k | j <= k < b - 2 :: !PairAt(s, k, '*', '/')
    ensures NestedEnd(s, j, depth).Some? ==> NestedEnd(s, j, depth).value >= b - 2 + 2 * depth
    decreases b - j
  {
    if j + 1 < |s| {
      if PairAt(s, j, '/', '*') {
        if j + 4 <= b { NothingClosesBefore(s, j + 2, depth + 1, b); } else { NestedEndIsLate(s, j + 2, depth + 1); }
      } else if PairAt(s, j, '*', '/') {
        if depth > 1 { NestedEndIsLate(s, j + 2, depth - 1); }
      } else if j + 3 <= b {
        NothingClosesBefore(s, j + 1, depth, b);
      } else {
        NestedEndIsLate(s, j + 1, depth);
      }
    }
  }

  /** A comment that ends with the first closing pair nests nothing if and only if nothing opens in it. */
  lemma {:induction false} EndsAtFirstCloseIff(s: string, j: nat, b: nat)
    requires j + 2 <= b && PairAt(s, b - 2, '*', '/') && forall k | j <= k < b - 2 :: !PairAt(s, k, '*', '/')
    ensures NestedEnd(s, j, 1) == Some(b) <==> !OpensWithin(s, j, b)
    decreases b - j
  {
    if j < b - 2 {
      if PairAt(s, j, '/', '*') {
        if j + 4 <= b { NothingClosesBefore(s, j + 2, 2, b); } else { NestedEndIsLate(s, j + 2, 2); }
      } else {
        EndsAtFirstCloseIff(s, j + 1, b);
        assert OpensWithin(s, j, b) <==> OpensWithin(s, j + 1, b);
      }
    }
  }

  lemma BlockReadsAlikeIff(e: Rules, s: string, t: Token, run: string)
    requires t.kind.Comment? && t.start < t.end <= |s| && IsBlockComment(s, t.start, t.end)
    ensures EngineStep(e, s, t.start, run) == Some(t) <==> !Differs(e, s, t, run)
  {
    BlockCommentIff(s, t.start, t.end);
    EndsAtFirstCloseIff(s, t.start + 2, t.end);
  }

  lemma LineReadsAlikeIff(d: Dialect, e: Rules, s: string, t: Token, run: string)
    requires t.kind.Comment? && t.start < t.end <= |s| && IsLineComment(d, s, t.start, t.end)
    ensures EngineStep(e, s, t.start, run) == Some(t) <==> !Differs(e, s, t, run)
  {
    EngineLineEndIff(e, s, t.start + 1, t.end);
  }

  // --- quoted text ----------------------------------------------------------------------------------

  /** Quoted text that the scanner takes has no backslashes, so it ends there under every escaping rule. */
  lemma {:induction false} QuotedEndsAlike(s: string, j: nat, close: char, b: nat, escapes: bool)
    requires QuoteEnd(s, j, close) == Ok(b)
    ensures QuotedEnd(s, j, close, escapes) == Some(b)
    decreases |s| - j
  {
    if s[j] == close && !(j + 1 < |s| && s[j + 1] == close) {
    } else {
      QuotedEndsAlike(s, if s[j] == close then j + 2 else j + 1, close, b, escapes);
    }
  }

  lemma {:induction false} NameEndIs(s: string, j: nat, k: nat)
    requires j <= k < |s| && (forall i | j <= i < k :: InName(s[i])) && !InName(s[k])
    ensures NameEnd(s, j) == k
    decreases k - j
  {
    if j < k {
      NameEndIs(s, j + 1, k);
    }
  }

  lemma {:induction false} NameEndIsName(s: string, j: nat)
    requires j <= |s|
    ensures forall i | j <= i < NameEnd(s, j) :: InName(s[i])
    decreases |s| - j
  {
    if j < |s| && InName(s[j]) {
      NameEndIsName(s, j + 1);
    }
  }

  lemma TagEndIff(s: string, a: nat, x: nat)
    requires a < |s| && s[a] == '$'
    ensures TagEnd(s, a) == Some(x) <==> WideTagAt(s, a, x)
  {
    NameEndIsName(s, a + 1);
    if WideTagAt(s, a, x) {
      NameEndIs(s, a + 1, x - 1);
    }
  }

  lemma QuotedReadsAlikeIff(u: CharClass, d: Dialect, e: Rules, s: string, t: Token, run: string)
    requires t.start < |s| && Step(u, d, s, t.start) == Ok(t) && t.kind.Quoted?
    ensures EngineStep(e, s, t.start, run) == Some(t) <==> !Differs(e, s, t, run)
  {
    var i := t.start;
    if s[i] == '$' {
      var x := MatchTag(s, i).value;
      MatchTagIff(s, i, x);
      assert WideTagAt(s, i, x);
      TagEndIff(s, i, x);
    } else {
      QuotedEndsAlike(s, i + 1, Closer(s[i]), t.end, e.escapes(s[i]));
    }
  }

  lemma CodeReadsAlikeIff(u: CharClass, d: Dialect, e: Rules, s: string, t: Token, run: string)
    requires t.kind.Code? && t.start < t.end <= |s| && IsToken(u, d, s, t)
    ensures EngineStep(e, s, t.start, run) == Some(t) <==> !Differs(e, s, t, run)
  {
    if s[t.start] == '$' {
      forall x: nat ensures TagEnd(s, t.start) == Some(x) <==> WideTagAt(s, t.start, x) { TagEndIff(s, t.start, x); }
    }
  }

  // --- whole texts ----------------------------------------------------------------------------------

  lemma TokenReadsAlikeIff(u: CharClass, d: Dialect, e: Rules, s: string, t: Token, run: string)
    requires t.start < t.end <= |s| && IsToken(u, d, s, t)
    ensures EngineStep(e, s, t.start, run) == Some(t) <==> !Differs(e, s, t, run)
  {
    match t.kind
    case Comment =>
      if IsBlockComment(s, t.start, t.end) {
        BlockReadsAlikeIff(e, s, t, run);
      } else {
        LineReadsAlikeIff(d, e, s, t, run);
      }
    case Quoted =>
      StepIff(u, d, s, t.start, t);
      QuotedReadsAlikeIff(u, d, e, s, t, run);
    case Code => CodeReadsAlikeIff(u, d, e, s, t, run);
  }

  /** The code directly before token `k`. */
  function RunBefore(s: string, toks: seq<Token>, k: nat): string
    requires k <= |toks|
  {
    if k == 0 then "" else RunAfter(s, RunBefore(s, toks, k - 1), toks[k - 1])
  }

  /** The engine does not read token `k` as the scanner does. */
  ghost predicate DiffersAt(e: Rules, s: string, toks: seq<Token>, k: nat) {
    k < |toks| && toks[k].start < |s| && Differs(e, s, toks[k], RunBefore(s, toks, k))
  }

  ghost predicate AlikeFrom(e: Rules, s: string, toks: seq<Token>, k: nat) {
    forall j | k <= j < |toks| :: !DiffersAt(e, s, toks, j)
  }

  lemma ScanStarts(e: Rules, s: string, i: nat, run: string, t: Token, rest: seq<Token>)
    requires i < |s| && t.end <= |s|
    ensures EngineScan(e, s, i, run) == Some([t] + rest)
            <==> EngineStep(e, s, i, run) == Some(t) && EngineScan(e, s, t.end, RunAfter(s, run, t)) == Some(rest)
  {
    var scan := EngineScan(e, s, i, run);
    if scan == Some([t] + rest) {
      assert scan.value[0] == t && scan.value[1..] == rest;
    }
  }

  lemma {:induction false} RestReadsAlikeIff(u: CharClass, d: Dialect, e: Rules, s: string, toks: seq<Token>, k: nat)
    requires Tokenises(u, d, s, 0, toks) && k <= |toks|
    ensures var i := if k < |toks| then toks[k].start else |s|;
            i <= |s| && (EngineScan(e, s, i, RunBefore(s, toks, k)) == Some(toks[k..]) <==> AlikeFrom(e, s, toks, k))
    decreases |toks| - k
  {
    if k < |toks| {
      var t := toks[k];
      TokenisesAt(u, d, s, 0, toks, k);
      TokenReadsAlikeIff(u, d, e, s, t, RunBefore(s, toks, k));
      RestReadsAlikeIff(u, d, e, s, toks, k + 1);
      ScanStarts(e, s, t.start, RunBefore(s, toks, k), t, toks[k + 1..]);
      assert toks[k..] == [t] + toks[k + 1..];
      assert AlikeFrom(e, s, toks, k) <==> !DiffersAt(e, s, toks, k) && AlikeFrom(e, s, toks, k + 1);
    } else {
      assert toks[k..] == [];
    }
  }

  /** For every engine: it cuts an accepted text into the scanner's tokens if and only if there is no
      token among them on which their rules part. */
  lemma ReadsAlikeIff(u: CharClass, d: Dialect, e: Rules, s: string, toks: seq<Token>)
    requires Tokenises(u, d, s, 0, toks)
    ensures EngineScan(e, s, 0, "") == Some(toks) <==> forall k | 0 <= k < |toks| :: !DiffersAt(e, s, toks, k)
  {
    if toks != [] {
      TokenisesAt(u, d, s, 0, toks, 0);
    }
    RestReadsAlikeIff(u, d, e, s, toks, 0);
    assert toks[0..] == toks;
  }

  // --- five engines -----------------------------------------------------------------------------------

  /** PostgreSQL (sections 4.1.1 to 4.1.5 of its documentation): a carriage return ends a line as well,
      block comments nest, and a dollar in a name opens nothing. */
  const POSTGRESQL := Rules(
    endsLine := c => c in "\r\n", opensDashes := next => true, hashes := false, nests := true, runs := {},
    quotes := c => c in "'\"", escapes := c => false, dollars := true, opensAfter := run => !EndsInName(run))

  /** MySQL (its manual on comment syntax and string literals): two dashes need a blank behind them. */
  const MYSQL := Rules(
    endsLine := c => c == '\n', opensDashes := next => IsBlank(next), hashes := true, nests := false, runs := {"!"},
    quotes := c => c in "'\"`", escapes := c => c in "'\"", dollars := false, opensAfter := run => false)

  /** MariaDB, which is reached in the same way, has a comment of its own that it runs. */
  const MARIADB := MYSQL.(runs := {"!", "M!"})

  /** SQL Server (Transact-SQL on comments and delimited identifiers): block comments nest. */
  const SQLSERVER := Rules(
    endsLine := c => c == '\n', opensDashes := next => true, hashes := false, nests := true, runs := {},
    quotes := c => c in "'\"[", escapes := c => false, dollars := false, opensAfter := run => false)

  /** SQLite ("SQL Comment Syntax" and "SQLite Keywords"): brackets and backticks quote as well. */
  const SQLITE := Rules(
    endsLine := c => c == '\n', opensDashes := next => true, hashes := false, nests := false, runs := {},
    quotes := c => c in "'\"`[", escapes := c => false, dollars := false, opensAfter := run => false)

  predicate IsBlank(next: Option<char>) {
    next.Some? ==> next.value as int <= 32
  }

  /** The longest end of `run` that is made of letters, digits, underscores and dollars. */
  function LastWord(run: string): string {
    if run == "" || !(InName(run[|run| - 1]) || run[|run| - 1] == '$') then ""
    else LastWord(run[..|run| - 1]) + [run[|run| - 1]]
  }

  predicate EndsInName(run: string) {
    LastWord(run) != "" && StartsName(LastWord(run)[0])
  }

  // --- what each of them reads otherwise ----------------------------------------------------------------

  /** A section between dollars. */
  predicate IsDollarSection(s: string, t: Token) {
    t.kind.Quoted? && t.start < |s| && s[t.start] == '$'
  }

  predicate IsBacktickSection(s: string, t: Token) {
    t.kind.Quoted? && t.start < |s| && s[t.start] == '`'
  }

  ghost predicate IsNesting(s: string, t: Token) {
    t.kind.Comment? && PairAt(s, t.start, '/', '*') && OpensWithin(s, t.start + 2, t.end)
  }

  /** A line comment with a carriage return in it. */
  predicate IsReturning(s: string, t: Token) {
    t.kind.Comment? && t.start < t.end <= |s| && !PairAt(s, t.start, '/', '*') && '\r' in s[t.start..t.end]
  }

  /** A dollar in the code where PostgreSQL sees a tag. */
  ghost predicate IsWideTag(s: string, t: Token, run: string) {
    t.kind.Code? && t.start < |s| && s[t.start] == '$' && !EndsInName(run) && exists x :: WideTagAt(s, t.start, x)
  }

  /** A dollar section that opens in the middle of a name. */
  predicate IsInName(s: string, t: Token, run: string) {
    IsDollarSection(s, t) && EndsInName(run)
  }

  lemma PostgresDiffers(u: CharClass, s: string, t: Token, run: string)
    requires t.start < t.end <= |s| && IsToken(u, PostgreSql, s, t)
    ensures Differs(POSTGRESQL, s, t, run) <==>
            || IsNesting(s, t) || IsReturning(s, t) || IsBacktickSection(s, t)
            || IsInName(s, t, run) || IsWideTag(s, t, run)
  {
    if t.kind.Comment? && !PairAt(s, t.start, '/', '*') {
      assert IsLineComment(PostgreSql, s, t.start, t.end);
      assert '\r' in s[t.start..t.end] <==> exists k :: t.start < k < t.end <= |s| && POSTGRESQL.endsLine(s[k]) by {
        if '\r' in s[t.start..t.end] {
          var j :| 0 <= j < t.end - t.start && s[t.start..t.end][j] == '\r';
          assert POSTGRESQL.endsLine(s[t.start + j]);
        }
        if k :| t.start < k < t.end && POSTGRESQL.endsLine(s[k]) {
          assert s[t.start..t.end][k - t.start] == '\r';
        }
      }
    }
  }

  lemma MySqlDiffers(u: CharClass, s: string, t: Token, run: string)
    requires t.start < t.end <= |s| && IsToken(u, MySql, s, t)
    ensures Differs(MYSQL, s, t, run) <==> IsDollarSection(s, t)
    ensures Differs(MARIADB, s, t, run) <==> IsDollarSection(s, t) || IsRunComment(s, t)
  {
    if t.kind.Comment? && PairAt(s, t.start, '/', '*') {
      assert IsBlockComment(s, t.start, t.end);
      assert s[t.start + 2..t.start + 3] == [s[t.start + 2]];
    }
  }

  /** A comment that MariaDB runs. */
  predicate IsRunComment(s: string, t: Token) {
    t.kind.Comment? && PairAt(s, t.start, '/', '*') && OccursAt(s, "M!", t.start + 2)
  }

  lemma SqlServerDiffers(u: CharClass, s: string, t: Token, run: string)
    requires t.start < t.end <= |s| && IsToken(u, MsSql, s, t)
    ensures Differs(SQLSERVER, s, t, run) <==> IsDollarSection(s, t) || IsBacktickSection(s, t) || IsNesting(s, t)
  {
  }

  lemma SqliteDiffers(u: CharClass, s: string, t: Token, run: string)
    requires t.start < t.end <= |s| && IsToken(u, Sqlite, s, t)
    ensures Differs(SQLITE, s, t, run) <==> IsDollarSection(s, t) || (t.kind.Code? && s[t.start] == '[')
  {
  }

  lemma PostgresReadsAlikeIff(u: CharClass, s: string, toks: seq<Token>)
    requires Tokenises(u, PostgreSql, s, 0, toks)
    ensures EngineScan(POSTGRESQL, s, 0, "") == Some(toks) <==>
            forall k | 0 <= k < |toks| ::
              var t, run := toks[k], RunBefore(s, toks, k);
              !IsNesting(s, t) && !IsReturning(s, t) && !IsBacktickSection(s, t) && !IsInName(s, t, run)
              && !IsWideTag(s, t, run)
  {
    ReadsAlikeIff(u, PostgreSql, POSTGRESQL, s, toks);
    forall k | 0 <= k < |toks|
      ensures DiffersAt(POSTGRESQL, s, toks, k) <==>
              var t, run := toks[k], RunBefore(s, toks, k);
              || IsNesting(s, t) || IsReturning(s, t) || IsBacktickSection(s, t)
              || IsInName(s, t, run) || IsWideTag(s, t, run)
    {
      TokenisesAt(u, PostgreSql, s, 0, toks, k);
      PostgresDiffers(u, s, toks[k], RunBefore(s, toks, k));
    }
  }

  lemma MySqlReadsAlikeIff(u: CharClass, s: string, toks: seq<Token>)
    requires Tokenises(u, MySql, s, 0, toks)
    ensures EngineScan(MYSQL, s, 0, "") == Some(toks) <==> forall k | 0 <= k < |toks| :: !IsDollarSection(s, toks[k])
    ensures EngineScan(MARIADB, s, 0, "") == Some(toks) <==>
            forall k | 0 <= k < |toks| :: !IsDollarSection(s, toks[k]) && !IsRunComment(s, toks[k])
  {
    ReadsAlikeIff(u, MySql, MYSQL, s, toks);
    ReadsAlikeIff(u, MySql, MARIADB, s, toks);
    forall k | 0 <= k < |toks|
      ensures DiffersAt(MYSQL, s, toks, k) <==> IsDollarSection(s, toks[k])
      ensures DiffersAt(MARIADB, s, toks, k) <==> IsDollarSection(s, toks[k]) || IsRunComment(s, toks[k])
    {
      TokenisesAt(u, MySql, s, 0, toks, k);
      MySqlDiffers(u, s, toks[k], RunBefore(s, toks, k));
    }
  }

  lemma SqlServerReadsAlikeIff(u: CharClass, s: string, toks: seq<Token>)
    requires Tokenises(u, MsSql, s, 0, toks)
    ensures EngineScan(SQLSERVER, s, 0, "") == Some(toks) <==>
            forall k | 0 <= k < |toks| ::
              !IsDollarSection(s, toks[k]) && !IsBacktickSection(s, toks[k]) && !IsNesting(s, toks[k])
  {
    ReadsAlikeIff(u, MsSql, SQLSERVER, s, toks);
    forall k | 0 <= k < |toks|
      ensures DiffersAt(SQLSERVER, s, toks, k) <==>
              IsDollarSection(s, toks[k]) || IsBacktickSection(s, toks[k]) || IsNesting(s, toks[k])
    {
      TokenisesAt(u, MsSql, s, 0, toks, k);
      SqlServerDiffers(u, s, toks[k], RunBefore(s, toks, k));
    }
  }

  lemma SqliteReadsAlikeIff(u: CharClass, s: string, toks: seq<Token>)
    requires Tokenises(u, Sqlite, s, 0, toks)
    ensures EngineScan(SQLITE, s, 0, "") == Some(toks) <==>
            forall k | 0 <= k < |toks| :: !IsDollarSection(s, toks[k]) && !IsCodeBracket(s, toks[k])
  {
    ReadsAlikeIff(u, Sqlite, SQLITE, s, toks);
    forall k | 0 <= k < |toks|
      ensures DiffersAt(SQLITE, s, toks, k) <==> IsDollarSection(s, toks[k]) || IsCodeBracket(s, toks[k])
    {
      TokenisesAt(u, Sqlite, s, 0, toks, k);
      SqliteDiffers(u, s, toks[k], RunBefore(s, toks, k));
    }
  }

  predicate IsCodeBracket(s: string, t: Token) {
    t.kind.Code? && t.start < |s| && s[t.start] == '['
  }

  // --- texts that are read otherwise ----------------------------------------------------------------

  /** To PostgreSQL: a string between tags with a digit, which is code to the scanner. */
  lemma DigitTagIsCode(u: CharClass)
    ensures var s := "$a1$ $a1$";
            Mask(u, PostgreSql, s) == Ok(s) && EngineStep(POSTGRESQL, s, 0, "") == Some(Token(Quoted, 0, |s|))
  {
    var s := "$a1$ $a1$";
    assert s[0] == '$' && s[1] == 'a' && s[2] == '1' && s[3] == '$' && s[4] == ' '
           && s[5] == '$' && s[6] == 'a' && s[7] == '1' && s[8] == '$';
    forall k | 0 <= k < |s| ensures IsCode(u, PostgreSql, s, k) {
      forall e ensures !TagAt(s, k, e) {
        if k == 0 || k == 5 { assert !IsTagLetter(s[k + 2]); }
        if k == 3 { assert !IsTagLetter(s[4]); }
      }
    }
    AllCodeMasksToItself(u, PostgreSql, s, 0);
    assert s[0..] == s;
    DigitTagCloses(s);
  }

  lemma DigitTagCloses(s: string)
    requires s == "$a1$ $a1$"
    ensures EngineStep(POSTGRESQL, s, 0, "") == Some(Token(Quoted, 0, |s|))
  {
    assert WideTagAt(s, 0, 4) && s[0..4] == "$a1$" == s[5..9];
    assert s[4..8] != s[0..4] by { assert s[4..8][0] == ' '; }
    TagEndIff(s, 0, 4);
    DollarQuoteIff(s, 0, 4, 9);
  }

  /** To PostgreSQL: a carriage return behind two dashes, where its line comment ends. */
  lemma ReturnEndsComment(u: CharClass)
    ensures var s := "--\r1";
            Mask(u, PostgreSql, s) == Ok(" ") && EngineStep(POSTGRESQL, s, 0, "") == Some(Token(Comment, 0, 2))
  {
    var s := "--\r1";
    EngineLineEndIff(POSTGRESQL, s, 1, 2);
    LineEndIff(s, 0, 4);
    OneSection(u, PostgreSql, s, Token(Comment, 0, 4));
  }

  /** To PostgreSQL and SQL Server: a comment in a comment, of which the scanner takes the end for code. */
  lemma NestedCommentEndsEarly(u: CharClass, d: Dialect)
    ensures var s := "/*/**/*/";
            && Mask(u, d, s) == Ok(" */")
            && EngineStep(POSTGRESQL, s, 0, "") == EngineStep(SQLSERVER, s, 0, "") == Some(Token(Comment, 0, |s|))
  {
    var s := "/*/**/*/";
    var toks := [Token(Comment, 0, 6), Token(Code, 6, 7), Token(Code, 7, 8)];
    assert s[2] == '/' && s[3] == '*' && s[4] == '*' && s[5] == '/' && s[6] == '*' && s[7] == '/';
    assert IsBlockComment(s, 0, 6);
    assert toks[1..] == [toks[1], toks[2]] && toks[1..][1..] == [toks[2]] && [toks[2]][1..] == [];
    assert Tokenises(u, d, s, 8, []);
    assert Tokenises(u, d, s, 7, [toks[2]]);
    assert Tokenises(u, d, s, 6, toks[1..]);
    assert Tokenises(u, d, s, 0, toks);
    assert Render(s, toks) == " */";
    MaskIff(u, d, s, " */");
    assert NestedEnd(s, 6, 1) == Some(8) && NestedEnd(s, 4, 2) == Some(8);
  }

  /** To every engine but PostgreSQL: two pairs of dollars, which quote for the scanner whatever the dialect. */
  lemma DollarsQuoteNothing(u: CharClass, d: Dialect)
    ensures Mask(u, d, "$$ $$") == Ok("?")
    ensures EngineStep(MYSQL, "$$ $$", 0, "") == EngineStep(MARIADB, "$$ $$", 0, "") == Some(Token(Code, 0, 1))
    ensures EngineStep(SQLSERVER, "$$ $$", 0, "") == EngineStep(SQLITE, "$$ $$", 0, "") == Some(Token(Code, 0, 1))
  {
    var s := "$$ $$";
    assert TagAt(s, 0, 2);
    MatchTagIff(s, 0, 2);
    assert s[0..2] == "$$" == s[3..5] && s[2..4][0] == ' ';
    DollarQuoteIff(s, 0, 2, 5);
    OneSection(u, d, s, Token(Quoted, 0, 5));
  }

  /** To PostgreSQL and SQL Server: a backtick, which quotes for the scanner whatever the dialect. */
  lemma BacktickIsQuoted(u: CharClass, d: Dialect)
    ensures Mask(u, d, "`x`") == Ok("?")
    ensures EngineStep(POSTGRESQL, "`x`", 0, "") == EngineStep(SQLSERVER, "`x`", 0, "") == Some(Token(Code, 0, 1))
  {
    var s := "`x`";
    assert QuoteEnd(s, 2, '`') == Ok(3) && QuoteEnd(s, 1, '`') == Ok(3);
    OneSection(u, d, s, Token(Quoted, 0, 3));
  }

  /** To SQLite: a name in brackets, which is code to the scanner. */
  lemma BracketIsCode(u: CharClass)
    ensures Mask(u, Sqlite, "[x]") == Ok("[x]") && EngineStep(SQLITE, "[x]", 0, "") == Some(Token(Quoted, 0, 3))
  {
    var s := "[x]";
    forall k | 0 <= k < |s| ensures IsCode(u, Sqlite, s, k) {}
    AllCodeMasksToItself(u, Sqlite, s, 0);
    assert s[0..] == s;
    assert QuotedEnd(s, 2, ']', false) == Some(3);
  }

  /** To MariaDB: a comment that it runs. */
  lemma RunCommentIsMasked(u: CharClass)
    ensures Mask(u, MySql, "/*M!1*/") == Ok(" ") && EngineStep(MARIADB, "/*M!1*/", 0, "") == Some(Token(Code, 0, 1))
  {
    var s := "/*M!1*/";
    assert s[2..4] == "M!" && OccursAt(s, "M!", 2);
    BlockCommentIff(s, 0, 7);
    OneSection(u, MySql, s, Token(Comment, 0, 7));
  }

  /** A text that is one section masks to one character. */
  lemma OneSection(u: CharClass, d: Dialect, s: string, t: Token)
    requires s != "" && Step(u, d, s, 0) == Ok(t) && t.end == |s|
    ensures Mask(u, d, s) == Ok([Glyph(s, t)])
  {
    MaskFromStep(u, d, s, 0);
    assert MaskFrom(u, d, s, |s|) == Ok([]);
    assert [Glyph(s, t)] + [] == [Glyph(s, t)];
  }
}
