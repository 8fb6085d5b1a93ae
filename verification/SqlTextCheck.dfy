/** The validator's text check, and the proof that what it checked is what it returns to be sent. */
module SqlTextCheck {
  import opened Results
  import opened SqlText
  import opened SqlTokens
  import opened SqlScanner
  import opened SqlSections
  import opened SqlMaskLaws

  datatype Refusal =
    | EmptySql
    | TooLong
    | NullCharacter
    | Masking(rejection: Rejection)
    | SeveralStatements
    | NotAQuery
    | ForbiddenKeyword
    | RowLocking
    | DangerousFunction
    | Structure(message: string)

  /** The regular expressions, each as the question it answers about the code. */
  datatype TextRules = TextRules(
    startsLikeQuery: string -> bool,
    hasForbiddenKeyword: string -> bool,
    hasLockingClause: string -> bool,
    hasDangerousFunction: string -> bool)

  datatype ValidatedQuery = ValidatedQuery(sql: string, tables: set<string>)

  function CheckText(rules: TextRules, code: string): Result<string, Refusal> {
    if ';' in code then Err(SeveralStatements)
    else if !rules.startsLikeQuery(code) then Err(NotAQuery)
    else if rules.hasForbiddenKeyword(code) then Err(ForbiddenKeyword)
    else if rules.hasLockingClause(code) then Err(RowLocking)
    else if rules.hasDangerousFunction(code) then Err(DangerousFunction)
    else Ok(code)
  }

  /** `masked.strip().rstrip(";").strip()` */
  function Trim(u: CharClass, masked: string): string {
    Strip(u, DropSemicolons(Strip(u, masked)))
  }

  /** Everything `validate` does before parsing; the code it checked, if it is accepted. */
  function TextCheck(u: CharClass, d: Dialect, rules: TextRules, maxLength: nat, sql: string): Result<string, Refusal> {
    if Strip(u, sql) == [] then Err(EmptySql)
    else if |sql| > maxLength then Err(TooLong)
    else if '\0' in sql then Err(NullCharacter)
    else
      match Mask(u, d, sql)
      case Err(e) => Err(Masking(e))
      case Ok(masked) => CheckText(rules, Trim(u, masked))
  }

  function StripTrailingSemicolon(u: CharClass, sql: string): string {
    var stripped := Rstrip(u, sql);
    if stripped != [] && stripped[|stripped| - 1] == ';' then Rstrip(u, stripped[..|stripped| - 1]) else stripped
  }

  /** `parse` stands for the parser: the tables of the one query that `sql` is, or a refusal. */
  function Validate(u: CharClass, d: Dialect, rules: TextRules, maxLength: nat,
                    parse: string -> Result<set<string>, Refusal>, sql: string): Result<ValidatedQuery, Refusal>
  {
    match TextCheck(u, d, rules, maxLength, sql)
    case Err(e) => Err(e)
    case Ok(_) =>
      match parse(sql)
      case Err(e) => Err(e)
      case Ok(tables) => Ok(ValidatedQuery(StripTrailingSemicolon(u, sql), tables))
  }

  // --- what is accepted, and what is returned ---------------------------------------------------

  /** `strip` is what is left between two blank ends. */
  lemma StripIff(u: CharClass, s: string, r: string)
    ensures r == Strip(u, s) <==> exists a: string, b: string :: IsStripped(u, s, a, r, b)
  {
    RstripIs(u, s);
    var m := Rstrip(u, s);
    var a := BlankStart(u, m);
    assert s == a + Strip(u, s) + s[|m|..];
    assert IsStripped(u, s, a, Strip(u, s), s[|m|..]) by { LstripIs(u, m); }
    forall a: string, b: string | IsStripped(u, s, a, r, b) ensures r == Strip(u, s) {
      StrippedIsUnique(u, s, a, r, b);
    }
  }

  /** `s` is `r` between blanks `a` and `b`, and `r` neither begins nor ends with a blank. */
  ghost predicate IsStripped(u: CharClass, s: string, a: string, r: string, b: string) {
    && s == a + r + b
    && (forall k | 0 <= k < |a| :: u.isSpace(a[k])) && (forall k | 0 <= k < |b| :: u.isSpace(b[k]))
    && (r != "" ==> !u.isSpace(r[0]) && !u.isSpace(r[|r| - 1]))
  }

  lemma {:induction false} BlankStart(u: CharClass, s: string) returns (a: string)
    ensures s == a + Lstrip(u, s) && forall k | 0 <= k < |a| :: u.isSpace(a[k])
  {
    if s != "" && u.isSpace(s[0]) {
      a := BlankStart(u, s[1..]);
      a := [s[0]] + a;
    } else {
      a := "";
    }
  }

  lemma StrippedIsUnique(u: CharClass, s: string, a: string, r: string, b: string)
    requires IsStripped(u, s, a, r, b)
    ensures r == Strip(u, s)
  {
    RstripAppend(u, a + r, b);
    LstripAppend(u, a, r);
    assert Lstrip(u, r) == r;
    if r == "" {
      assert a + r == a;
      RstripAppend(u, "", a);
      assert "" + a == a;
    } else {
      assert (a + r)[|a + r| - 1] == r[|r| - 1];
    }
  }

  lemma {:induction false} DropSemicolonsIff(s: string, r: string)
    ensures r == DropSemicolons(s) <==>
            r <= s && (forall k | |r| <= k < |s| :: s[k] == ';') && (r != "" ==> r[|r| - 1] != ';')
  {
    if s != "" && s[|s| - 1] == ';' {
      DropSemicolonsIff(s[..|s| - 1], r);
      if r == s { assert r[|r| - 1] == ';'; }
    }
  }

  /** What is accepted, with which code, written out. */
  lemma AcceptedIff(u: CharClass, d: Dialect, rules: TextRules, maxLength: nat, sql: string, code: string)
    ensures TextCheck(u, d, rules, maxLength, sql) == Ok(code) <==>
            && (exists k :: 0 <= k < |sql| && !u.isSpace(sql[k]))
            && |sql| <= maxLength
            && '\0' !in sql
            && Mask(u, d, sql).Ok?
            && code == Strip(u, DropSemicolons(Strip(u, Mask(u, d, sql).value)))
            && ';' !in code
            && rules.startsLikeQuery(code)
            && !rules.hasForbiddenKeyword(code)
            && !rules.hasLockingClause(code)
            && !rules.hasDangerousFunction(code)
  {
    BlankIff(u, sql);
  }

  lemma BlankIff(u: CharClass, s: string)
    ensures Strip(u, s) == "" <==> forall k | 0 <= k < |s| :: u.isSpace(s[k])
  {
    StripIff(u, s, "");
    if forall k | 0 <= k < |s| :: u.isSpace(s[k]) {
      assert IsStripped(u, s, s, "", "");
    }
  }

  /** Which refusal is given: that of the first check that fails, in this order. */
  lemma RefusalIs(u: CharClass, d: Dialect, rules: TextRules, maxLength: nat, sql: string, e: Refusal)
    requires TextCheck(u, d, rules, maxLength, sql) == Err(e)
    ensures match e
            case EmptySql => forall k | 0 <= k < |sql| :: u.isSpace(sql[k])
            case TooLong => (exists k :: 0 <= k < |sql| && !u.isSpace(sql[k])) && |sql| > maxLength
            case NullCharacter => |sql| <= maxLength && '\0' in sql
            case Masking(why) => '\0' !in sql && Mask(u, d, sql) == Err(why)
            case Structure(_) => false
            case _ =>
              && Mask(u, d, sql).Ok?
              && var code := Strip(u, DropSemicolons(Strip(u, Mask(u, d, sql).value)));
                 match e
                 case SeveralStatements => ';' in code
                 case NotAQuery => ';' !in code && !rules.startsLikeQuery(code)
                 case ForbiddenKeyword => rules.startsLikeQuery(code) && rules.hasForbiddenKeyword(code)
                 case RowLocking => !rules.hasForbiddenKeyword(code) && rules.hasLockingClause(code)
                 case _ => !rules.hasLockingClause(code) && rules.hasDangerousFunction(code)
  {
    BlankIff(u, sql);
  }

  /** What is returned: the parser's tables, and the SQL without the blanks at its end, one semicolon
      if there is one there, and the blanks before that. */
  lemma ReturnedIff(u: CharClass, d: Dialect, rules: TextRules, maxLength: nat,
                    parse: string -> Result<set<string>, Refusal>, sql: string, q: ValidatedQuery)
    requires Sane(u)
    ensures Validate(u, d, rules, maxLength, parse, sql) == Ok(q) <==>
            && TextCheck(u, d, rules, maxLength, sql).Ok?
            && parse(sql) == Ok(q.tables)
            && exists a: string, semicolon: string, b: string :: IsSent(u, sql, q.sql, a, semicolon, b)
  {
    SentIff(u, sql, q.sql);
  }

  /** `sql` is `sent`, blanks, at most one semicolon, and blanks; a semicolon that is there is cut off. */
  ghost predicate IsSent(u: CharClass, sql: string, sent: string, a: string, semicolon: string, b: string) {
    && sql == sent + a + semicolon + b
    && (forall k | 0 <= k < |a| :: u.isSpace(a[k])) && (forall k | 0 <= k < |b| :: u.isSpace(b[k]))
    && (sent != "" ==> !u.isSpace(sent[|sent| - 1]))
    && (semicolon == ";" || (semicolon == "" && a == "" && (sent != "" ==> sent[|sent| - 1] != ';')))
  }

  lemma SentIff(u: CharClass, sql: string, sent: string)
    requires Sane(u)
    ensures sent == StripTrailingSemicolon(u, sql) <==>
            exists a: string, semicolon: string, b: string :: IsSent(u, sql, sent, a, semicolon, b)
  {
    SentParts(u, sql);
    forall a: string, semicolon: string, b: string | IsSent(u, sql, sent, a, semicolon, b)
      ensures sent == StripTrailingSemicolon(u, sql)
    {
      SentIsUnique(u, sql, sent, a, semicolon, b);
    }
  }

  lemma SentParts(u: CharClass, sql: string)
    ensures exists a: string, semicolon: string, b: string ::
              IsSent(u, sql, StripTrailingSemicolon(u, sql), a, semicolon, b)
  {
    RstripIs(u, sql);
    var r, sent := Rstrip(u, sql), StripTrailingSemicolon(u, sql);
    if r != "" && r[|r| - 1] == ';' {
      var t := r[..|r| - 1];
      RstripIs(u, t);
      assert sql == sent + t[|sent|..] + ";" + sql[|r|..];
      assert IsSent(u, sql, sent, t[|sent|..], ";", sql[|r|..]);
    } else {
      assert sql == sent + "" + "" + sql[|r|..];
      assert IsSent(u, sql, sent, "", "", sql[|r|..]);
    }
  }

  lemma SentIsUnique(u: CharClass, sql: string, sent: string, a: string, semicolon: string, b: string)
    requires Sane(u) && IsSent(u, sql, sent, a, semicolon, b)
    ensures sent == StripTrailingSemicolon(u, sql)
  {
    var r := sent + a + semicolon;
    RstripAppend(u, r, b);
    RstripAppend(u, sent, a);
    RstripSolid(u, sent);
    if semicolon == ";" {
      assert !u.isSpace(';') by { assert ';' in DELIMITERS; }
      assert r[|r| - 1] == ';' && r[..|r| - 1] == sent + a;
      RstripSolid(u, r);
    } else {
      assert r == sent;
    }
  }

  // --- cutting loose characters off the end -------------------------------------------------

  /** Only characters that stripping may remove. */
  ghost predicate Loose(u: CharClass, s: string, c: nat) {
    c <= |s| && forall k | c <= k < |s| :: u.isSpace(s[k]) || s[k] == ';'
  }

  lemma LooseIsPlain(u: CharClass, d: Dialect, s: string, c: nat, t: Token)
    requires Sane(u) && Loose(u, s, c) && t.end <= |s| && IsToken(u, d, s, t) && !t.kind.Code?
    ensures t.start < c
    ensures c < t.end ==> IsLineComment(d, s, t.start, t.end)
  {
    SectionEdges(u, d, s, t);
    assert s[t.start] in DELIMITERS && s[t.start] != ';';
    if c < t.end && t.kind.Quoted? {
      LastOfQuoted(u, d, s, t);
    }
  }

  lemma {:induction false} LooseTail(u: CharClass, d: Dialect, s: string, i: nat, toks: seq<Token>)
    requires Sane(u) && Tokenises(u, d, s, i, toks) && Loose(u, s, i)
    ensures Render(s, toks) == s[i..]
    decreases |toks|
  {
    if toks != [] {
      if !toks[0].kind.Code? { LooseIsPlain(u, d, s, i, toks[0]); }
      LooseTail(u, d, s, toks[0].end, toks[1..]);
      assert Render(s, toks) == [Glyph(s, toks[0])] + Render(s, toks[1..]);
      assert s[i..] == [s[i]] + s[i + 1..];
    }
  }

  /** A token that ends before the cut survives it. */
  lemma TokenSurvives(u: CharClass, d: Dialect, s: string, c: nat, t: Token)
    requires t.start < t.end <= c <= |s| && IsToken(u, d, s, t)
    ensures IsToken(u, d, s[..c], t) && Glyph(s[..c], t) == Glyph(s, t)
  {
    match t.kind {
      case Comment => CommentIsLocal(d, s, s[..c], t.start, t.end);
      case Quoted => QuotedIsLocal(u, d, s, s[..c], t.start, t.end);
      case Code =>
        forall e: nat | TagAt(s[..c], t.start, e) ensures TagAt(s, t.start, e) {}
    }
  }

  /** A line comment that the cut runs through is still a line comment. */
  lemma CommentIsCut(u: CharClass, d: Dialect, s: string, c: nat, a: nat, b: nat)
    requires Sane(u) && Loose(u, s, c) && a < c <= b && IsLineComment(d, s, a, b)
    ensures IsLineComment(d, s[..c], a, c)
  {
    if PairAt(s, a, '-', '-') {
      assert '-' in DELIMITERS && s[a + 1] != ';';
    }
  }

  /** Cutting loose characters off the text cuts characters off its mask, and nothing else;
      `e` is where the rest of the mask came from. */
  lemma {:induction false} MaskOfCut(u: CharClass, d: Dialect, s: string, i: nat, c: nat, toks: seq<Token>)
    returns (kept: seq<Token>, e: nat)
    requires Sane(u) && Tokenises(u, d, s, i, toks) && i <= c && Loose(u, s, c)
    ensures Tokenises(u, d, s[..c], i, kept)
    ensures c <= e <= |s| && Render(s, toks) == Render(s[..c], kept) + s[e..]
    decreases |toks|
  {
    if i == c {
      LooseTail(u, d, s, i, toks);
      kept, e := [], i;
    } else {
      var t, rest := toks[0], toks[1..];
      RenderCons(s, t, rest);
      assert toks == [t] + rest;
      if t.end <= c {
        var more;
        more, e := MaskOfCut(u, d, s, t.end, c, rest);
        kept := [t] + more;
        TokenStays(u, d, s, c, t, rest, more, e);
      } else {
        kept, e := [Token(Comment, i, c)], t.end;
        CutThrough(u, d, s, c, t, rest);
      }
    }
  }

  lemma TokenStays(u: CharClass, d: Dialect, s: string, c: nat, t: Token, rest: seq<Token>, more: seq<Token>, e: nat)
    requires t.start < t.end <= c <= e <= |s| && IsToken(u, d, s, t)
    requires Tokenises(u, d, s[..c], t.end, more) && Render(s, rest) == Render(s[..c], more) + s[e..]
    ensures Tokenises(u, d, s[..c], t.start, [t] + more)
    ensures Render(s, [t] + rest) == Render(s[..c], [t] + more) + s[e..]
  {
    TokenSurvives(u, d, s, c, t);
    RenderCons(s, t, rest);
    RenderCons(s[..c], t, more);
    assert ([t] + more)[1..] == more;
  }

  /** The cut runs through a token: it is a line comment, and only loose characters follow it. */
  lemma CutThrough(u: CharClass, d: Dialect, s: string, c: nat, t: Token, rest: seq<Token>)
    requires Sane(u) && Loose(u, s, c) && t.start < c < t.end <= |s| && IsToken(u, d, s, t)
    requires Tokenises(u, d, s, t.end, rest)
    ensures Tokenises(u, d, s[..c], t.start, [Token(Comment, t.start, c)])
    ensures [Glyph(s, t)] + Render(s, rest) == Render(s[..c], [Token(Comment, t.start, c)]) + s[t.end..]
  {
    LooseIsPlain(u, d, s, c, t);
    CommentIsCut(u, d, s, c, t.start, t.end);
    LooseTail(u, d, s, t.end, rest);
    var kept := [Token(Comment, t.start, c)];
    assert Tokenises(u, d, s[..c], c, kept[1..]);
    assert Render(s[..c], kept) == [' '];
  }

  lemma RenderCons(s: string, t: Token, rest: seq<Token>)
    ensures Render(s, [t] + rest) == [Glyph(s, t)] + Render(s, rest)
  {
  }

  lemma CutMasks(u: CharClass, d: Dialect, s: string, c: nat, m: string) returns (cut: string, e: nat)
    requires Sane(u) && Loose(u, s, c) && Mask(u, d, s) == Ok(m)
    ensures Mask(u, d, s[..c]) == Ok(cut)
    ensures c <= e <= |s| && m == cut + s[e..]
  {
    MaskIff(u, d, s, m);
    var toks :| Tokenises(u, d, s, 0, toks) && m == Render(s, toks);
    var kept;
    kept, e := MaskOfCut(u, d, s, 0, c, toks);
    cut := Render(s[..c], kept);
    MaskIff(u, d, s[..c], cut);
  }

  // --- trimming the mask ----------------------------------------------------------------------

  lemma StripWithSemicolon(u: CharClass, m: string)
    requires !u.isSpace(';')
    ensures DropSemicolons(Strip(u, m + ";")) == DropSemicolons(Lstrip(u, m))
  {
    assert Rstrip(u, m + ";") == m + ";";
    LstripAppend(u, m, ";");
    LstripIs(u, m);
    if AllSpace(u, m) {
      DropSemicolonsAppend([]);
      assert [] + ";" == ";";
    } else {
      DropSemicolonsAppend(Lstrip(u, m));
    }
  }

  /** With space before it, the last semicolon is the only one that trimming drops. */
  lemma TrimAfterSpace(u: CharClass, m: string)
    requires !u.isSpace(';') && (m == [] || u.isSpace(m[|m| - 1]))
    ensures Trim(u, m + ";") == Strip(u, m)
  {
    StripWithSemicolon(u, m);
    LstripIs(u, m);
    StripOfLstrip(u, m);
  }

  lemma TrimWithoutSemicolon(u: CharClass, m: string)
    requires ';' !in Strip(u, m)
    ensures Trim(u, m) == Strip(u, m)
  {
    StripIsIdempotent(u, m);
  }

  /** If the trimmed code has no semicolon left, one trailing semicolon more or less, with or
      without space before it, does not change it. */
  lemma TrimIgnoresOneSemicolon(u: CharClass, m: string, w: string)
    requires !u.isSpace(';') && AllSpace(u, w)
    requires ';' !in Trim(u, m + w + ";")
    ensures Trim(u, m) == Trim(u, m + w + ";")
  {
    var n := m + w;
    if n == [] || u.isSpace(n[|n| - 1]) {
      TrimAfterSpace(u, n);
      RstripAppend(u, m, w);
      TrimWithoutSemicolon(u, m);
    } else {
      assert n == m;
      StripWithSemicolon(u, m);
    }
  }

  // --- the theorem ------------------------------------------------------------------------------

  /** A piece of text that is gone from the end, as the mask sees it. */
  lemma LooseEnd(u: CharClass, d: Dialect, s: string, c: nat, m: string) returns (cut: string, w: string)
    requires Sane(u) && c <= |s| && (forall k | c <= k < |s| :: u.isSpace(s[k])) && Mask(u, d, s) == Ok(m)
    ensures Mask(u, d, s[..c]) == Ok(cut) && m == cut + w && AllSpace(u, w)
  {
    var e;
    cut, e := CutMasks(u, d, s, c, m);
    w := s[e..];
  }

  lemma RstripCut(u: CharClass, d: Dialect, s: string, m: string) returns (cut: string)
    requires Sane(u) && Mask(u, d, s) == Ok(m)
    ensures Mask(u, d, Rstrip(u, s)) == Ok(cut) && Trim(u, cut) == Trim(u, m)
  {
    RstripIs(u, s);
    var c, w := |Rstrip(u, s)|, "";
    assert Rstrip(u, s) == s[..c];
    cut, w := LooseEnd(u, d, s, c, m);
    RstripAppend(u, cut, w);
  }

  lemma SemicolonCut(u: CharClass, d: Dialect, r: string, c: nat, m: string) returns (cut: string)
    requires Sane(u) && !u.isSpace(';') && c < |r| && r[|r| - 1] == ';'
    requires forall k | c <= k < |r| - 1 :: u.isSpace(r[k])
    requires Mask(u, d, r) == Ok(m) && ';' !in Trim(u, m)
    ensures Mask(u, d, r[..c]) == Ok(cut) && Trim(u, cut) == Trim(u, m)
  {
    var e;
    cut, e := CutMasks(u, d, r, c, m);
    if e < |r| {
      var w := r[e..|r| - 1];
      assert m == cut + w + ";" by { assert r[e..] == w + ";"; }
      TrimIgnoresOneSemicolon(u, cut, w);
    } else {
      assert m == cut;
    }
  }

  /** Removing the trailing semicolon the way the validator does leaves the checked code alone. */
  lemma SentCodeIsCheckedCode(u: CharClass, d: Dialect, sql: string, m: string) returns (cut: string)
    requires Sane(u) && Mask(u, d, sql) == Ok(m) && ';' !in Trim(u, m)
    ensures Mask(u, d, StripTrailingSemicolon(u, sql)) == Ok(cut) && Trim(u, cut) == Trim(u, m)
  {
    cut := RstripCut(u, d, sql, m);
    var r := Rstrip(u, sql);
    if r != [] && r[|r| - 1] == ';' {
      assert ';' in DELIMITERS;
      var head := r[..|r| - 1];
      RstripIs(u, head);
      assert forall k | 0 <= k < |head| :: r[k] == head[k];
      assert Rstrip(u, head) == r[..|Rstrip(u, head)|];
      cut := SemicolonCut(u, d, r, |Rstrip(u, head)|, cut);
    }
  }

  lemma BlankMasksToBlank(u: CharClass, d: Dialect, s: string, m: string)
    requires Sane(u) && Strip(u, s) == [] && Mask(u, d, s) == Ok(m)
    ensures Trim(u, m) == []
  {
    RstripIs(u, s);
    LstripIs(u, Rstrip(u, s));
    var cut, w := LooseEnd(u, d, s, 0, m);
    assert s[..0] == [] && m == w;
    RstripAppend(u, [], w);
    assert [] + w == w;
  }

  lemma SentIsPrefix(u: CharClass, sql: string)
    ensures StripTrailingSemicolon(u, sql) <= sql
  {
    RstripIs(u, sql);
    var r := Rstrip(u, sql);
    if r != [] {
      RstripIs(u, r[..|r| - 1]);
    }
  }

  /** The returned SQL passes the text check again, with exactly the same code under scrutiny. */
  lemma SentPassesTextCheck(u: CharClass, d: Dialect, rules: TextRules, maxLength: nat, sql: string)
    requires Sane(u) && !rules.startsLikeQuery("")
    requires TextCheck(u, d, rules, maxLength, sql).Ok?
    ensures TextCheck(u, d, rules, maxLength, StripTrailingSemicolon(u, sql)) == TextCheck(u, d, rules, maxLength, sql)
  {
    var m := Mask(u, d, sql).value;
    var sent := StripTrailingSemicolon(u, sql);
    SentIsPrefix(u, sql);
    var cut := SentCodeIsCheckedCode(u, d, sql, m);
    if Strip(u, sent) == [] {
      BlankMasksToBlank(u, d, sent, cut);
    }
  }

  /** What is checked is what is sent: when `validate` accepts some SQL, the code that the text
      check judged is, character for character, the code of the SQL it returns. */
  lemma CheckedIsSent(u: CharClass, d: Dialect, rules: TextRules, maxLength: nat,
                      parse: string -> Result<set<string>, Refusal>, sql: string, query: ValidatedQuery)
    requires Sane(u) && !rules.startsLikeQuery("")
    requires Validate(u, d, rules, maxLength, parse, sql) == Ok(query)
    ensures TextCheck(u, d, rules, maxLength, query.sql).Ok?
    ensures TextCheck(u, d, rules, maxLength, query.sql) == TextCheck(u, d, rules, maxLength, sql)
  {
    SentPassesTextCheck(u, d, rules, maxLength, sql);
  }
}
