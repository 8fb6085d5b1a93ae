/** Laws of the mask: it is stable under masking again, its words are the words of the code,
    and it does not depend on what quoted text says. */
module SqlMaskLaws {
  import opened Results
  import opened SqlText
  import opened SqlTokens
  import opened SqlScanner
  import opened SqlSections

  // --- neighbours ----------------------------------------------------------------------------

  /** A comment or quoted section starts, and ends unless a newline or the end follows, with a
      character that is not part of a word. */
  lemma SectionEdges(u: CharClass, d: Dialect, s: string, t: Token)
    requires Sane(u) && t.end <= |s| && IsToken(u, d, s, t) && !t.kind.Code?
    ensures t.start < t.end && !u.IsWord(s[t.start])
    ensures t.end == |s| || s[t.end] == '\n' || (!u.IsWord(s[t.end - 1]) && s[t.end - 1] in DELIMITERS)
  {
    if t.kind.Quoted? {
      LastOfQuoted(u, d, s, t);
    }
  }

  /** Quoted text ends with one of the characters that close it. */
  lemma LastOfQuoted(u: CharClass, d: Dialect, s: string, t: Token)
    requires t.end <= |s| && IsToken(u, d, s, t) && t.kind.Quoted?
    ensures t.start < t.end && s[t.end - 1] in "'\"`]$"
  {
    var a, b := t.start, t.end;
    if IsQuoted(d, s, a, b) {
      var payload :| '\\' !in payload && s[a..b] == QuoteText(s[a], payload);
      assert s[b - 1] == s[a..b][b - a - 1] == Closer(s[a]);
    } else {
      var e: nat :| TagAt(s, a, e) && ClosesTag(s, a, e, b);
      assert s[b - 1] == s[b - (e - a)..b][e - a - 1] == s[a..e][e - a - 1];
    }
  }

  /** A stretch of code tokens copies a stretch of the text. */
  lemma {:induction false} CodeRun(u: CharClass, d: Dialect, s: string, toks: seq<Token>, i: nat, j: nat)
    requires Tokenises(u, d, s, 0, toks) && i < j <= |toks|
    requires forall k | i <= k < j :: toks[k].kind.Code?
    ensures toks[j - 1].end == toks[i].start + (j - i) <= |s|
    ensures forall k | i <= k < j :: toks[k].start == toks[i].start + (k - i)
    decreases j
  {
    TokenisesAt(u, d, s, 0, toks, j - 1);
    if i < j - 1 {
      CodeRun(u, d, s, toks, i, j - 1);
    }
  }

  // --- masking a mask ------------------------------------------------------------------------

  lemma MaskPairAt(u: CharClass, d: Dialect, s: string, toks: seq<Token>, k: nat, x: char, y: char)
    requires Tokenises(u, d, s, 0, toks) && x in "-/" && y in "-*"
    requires PairAt(Render(s, toks), k, x, y)
    ensures toks[k].kind.Code? && PairAt(s, toks[k].start, x, y)
  {
    var m := Render(s, toks);
    assert m[k] == x && m[k + 1] == y;
    CodeRun(u, d, s, toks, k, k + 2);
    assert toks[k + 1].start == toks[k].start + 1;
  }

  lemma MaskTagAt(u: CharClass, d: Dialect, s: string, toks: seq<Token>, k: nat, e: nat)
    requires Tokenises(u, d, s, 0, toks)
    requires TagAt(Render(s, toks), k, e)
    ensures toks[k].kind.Code? && TagAt(s, toks[k].start, toks[k].start + (e - k))
  {
    var m := Render(s, toks);
    forall i | k <= i < e ensures toks[i].kind.Code? {
      assert m[i] == '$' || IsTagLetter(m[i]);
    }
    CodeRun(u, d, s, toks, k, e);
    var a := toks[k].start;
    assert toks[e - 1].start == a + (e - 1 - k);
    forall i | a < i < a + (e - k) - 1 ensures IsTagLetter(s[i]) {
      assert toks[k + (i - a)].start == i && IsTagLetter(m[k + (i - a)]);
    }
  }

  /** A dollar that was code is still code: the character before it, if it mattered, is there too. */
  lemma MaskHasNoTag(u: CharClass, d: Dialect, s: string, toks: seq<Token>, k: nat, e: nat)
    requires Sane(u) && Tokenises(u, d, s, 0, toks) && k < |toks| && !AfterWord(u, Render(s, toks), k)
    ensures !TagAt(Render(s, toks), k, e)
  {
    if TagAt(Render(s, toks), k, e) {
      TokenisesAt(u, d, s, 0, toks, k);
      MaskTagAt(u, d, s, toks, k, e);
      assert AfterWord(u, s, toks[k].start);
      TokenisesAt(u, d, s, 0, toks, k - 1);
      if !toks[k - 1].kind.Code? { SectionEdges(u, d, s, toks[k - 1]); }
    }
  }

  /** Nothing in a mask opens a comment or quoted text. */
  lemma MaskIsAllCode(u: CharClass, d: Dialect, s: string, toks: seq<Token>, k: nat)
    requires Sane(u) && Tokenises(u, d, s, 0, toks) && k < |toks|
    ensures IsCode(u, d, Render(s, toks), k)
  {
    var m := Render(s, toks);
    TokenisesAt(u, d, s, 0, toks, k);
    if PairAt(m, k, '-', '-') { MaskPairAt(u, d, s, toks, k, '-', '-'); }
    if PairAt(m, k, '/', '*') { MaskPairAt(u, d, s, toks, k, '/', '*'); }
    if m[k] == '$' && !AfterWord(u, m, k) {
      forall e: nat ensures !TagAt(m, k, e) { MaskHasNoTag(u, d, s, toks, k, e); }
    }
  }

  lemma {:induction false} AllCodeMasksToItself(u: CharClass, d: Dialect, m: string, i: nat)
    requires i <= |m| && forall k | i <= k < |m| :: IsCode(u, d, m, k)
    ensures MaskFrom(u, d, m, i) == Ok(m[i..])
    decreases |m| - i
  {
    if i == |m| {
      assert m[i..] == [];
    } else {
      StepIff(u, d, m, i, Token(Code, i, i + 1));
      MaskFromStep(u, d, m, i);
      AllCodeMasksToItself(u, d, m, i + 1);
      assert m[i..] == [m[i]] + m[i + 1..];
    }
  }

  /** Masking is idempotent: a mask is never refused, and masking it changes nothing. */
  lemma MaskIsIdempotent(u: CharClass, d: Dialect, s: string, m: string)
    requires Sane(u) && Mask(u, d, s) == Ok(m)
    ensures Mask(u, d, m) == Ok(m)
  {
    MaskIff(u, d, s, m);
    var toks :| Tokenises(u, d, s, 0, toks) && m == Render(s, toks);
    forall k | 0 <= k < |m| ensures IsCode(u, d, m, k) {
      MaskIsAllCode(u, d, s, toks, k);
    }
    AllCodeMasksToItself(u, d, m, 0);
    assert m[0..] == m;
  }

  // --- words ---------------------------------------------------------------------------------

  /** `t[i..j]` is a maximal run of word characters, which is what `\b...\b` patterns see. */
  ghost predicate IsWordRun(u: CharClass, t: string, i: nat, j: nat) {
    && i < j <= |t|
    && (forall k | i <= k < j :: u.IsWord(t[k]))
    && (i > 0 ==> !u.IsWord(t[i - 1]))
    && (j < |t| ==> !u.IsWord(t[j]))
  }

  ghost predicate AllCode(toks: seq<Token>, i: nat, j: nat) {
    j <= |toks| && forall k | i <= k < j :: toks[k].kind.Code?
  }

  /** The character before a code token is in a word in the mask exactly when it is in the text. */
  lemma LeftEdgeAgrees(u: CharClass, d: Dialect, s: string, toks: seq<Token>, k: nat)
    requires Sane(u) && Tokenises(u, d, s, 0, toks) && k < |toks|
    requires toks[k].kind.Code? && u.IsWord(Render(s, toks)[k])
    ensures k == 0 <==> toks[k].start == 0
    ensures k > 0 ==> 0 < toks[k].start <= |s| && (u.IsWord(Render(s, toks)[k - 1]) <==> u.IsWord(s[toks[k].start - 1]))
  {
    TokenisesAt(u, d, s, 0, toks, k);
    if k > 0 {
      TokenisesAt(u, d, s, 0, toks, k - 1);
      if !toks[k - 1].kind.Code? { SectionEdges(u, d, s, toks[k - 1]); }
    }
  }

  /** And so is the one after it. */
  lemma RightEdgeAgrees(u: CharClass, d: Dialect, s: string, toks: seq<Token>, k: nat)
    requires Sane(u) && Tokenises(u, d, s, 0, toks) && k < |toks|
    requires toks[k].kind.Code? && u.IsWord(Render(s, toks)[k])
    ensures k == |toks| - 1 <==> toks[k].end == |s|
    ensures k < |toks| - 1 ==> toks[k].end < |s| && (u.IsWord(Render(s, toks)[k + 1]) <==> u.IsWord(s[toks[k].end]))
  {
    TokenisesAt(u, d, s, 0, toks, k);
    if k < |toks| - 1 {
      TokenisesAt(u, d, s, 0, toks, k + 1);
      if !toks[k + 1].kind.Code? { SectionEdges(u, d, s, toks[k + 1]); }
    }
  }

  lemma CodeRunIsWord(u: CharClass, d: Dialect, s: string, toks: seq<Token>, i: nat, j: nat)
    requires Sane(u) && Tokenises(u, d, s, 0, toks) && i < j && AllCode(toks, i, j)
    requires forall k | i <= k < j :: u.IsWord(Render(s, toks)[k])
    ensures toks[i].start < toks[j - 1].end == toks[i].start + (j - i) <= |s|
    ensures forall k | toks[i].start <= k < toks[j - 1].end :: u.IsWord(s[k])
  {
    CodeRun(u, d, s, toks, i, j);
    forall k | toks[i].start <= k < toks[j - 1].end ensures u.IsWord(s[k]) {
      var n := i + (k - toks[i].start);
      assert toks[n].start == k && u.IsWord(Render(s, toks)[n]);
    }
  }

  lemma CodeRunEdges(u: CharClass, d: Dialect, s: string, toks: seq<Token>, i: nat, j: nat)
    requires Sane(u) && Tokenises(u, d, s, 0, toks) && i < j && AllCode(toks, i, j)
    requires forall k | i <= k < j :: u.IsWord(Render(s, toks)[k])
    ensures IsWordRun(u, Render(s, toks), i, j) <==> IsWordRun(u, s, toks[i].start, toks[j - 1].end)
  {
    CodeRunIsWord(u, d, s, toks, i, j);
    var m, a, b := Render(s, toks), toks[i].start, toks[j - 1].end;
    assert u.IsWord(m[i]) && u.IsWord(m[j - 1]);
    assert (i > 0 ==> !u.IsWord(m[i - 1])) <==> (a > 0 ==> !u.IsWord(s[a - 1])) by {
      LeftEdgeAgrees(u, d, s, toks, i);
    }
    assert (j < |m| ==> !u.IsWord(m[j])) <==> (b < |s| ==> !u.IsWord(s[b])) by {
      RightEdgeAgrees(u, d, s, toks, j - 1);
    }
  }

  lemma WordOfMaskIsCode(u: CharClass, d: Dialect, s: string, toks: seq<Token>, i: nat, j: nat)
    requires Sane(u) && Tokenises(u, d, s, 0, toks) && IsWordRun(u, Render(s, toks), i, j)
    ensures AllCode(toks, i, j) && IsWordRun(u, s, toks[i].start, toks[j - 1].end)
    ensures Render(s, toks)[i..j] == s[toks[i].start..toks[j - 1].end]
  {
    var m := Render(s, toks);
    forall k | i <= k < j ensures toks[k].kind.Code? { assert u.IsWord(m[k]); }
    CodeRunEdges(u, d, s, toks, i, j);
    CodeRunText(u, d, s, toks, i, j);
  }

  lemma CodeRunText(u: CharClass, d: Dialect, s: string, toks: seq<Token>, i: nat, j: nat)
    requires Tokenises(u, d, s, 0, toks) && i < j && AllCode(toks, i, j)
    ensures toks[i].start < toks[j - 1].end <= |s| && Render(s, toks)[i..j] == s[toks[i].start..toks[j - 1].end]
  {
    CodeRun(u, d, s, toks, i, j);
    var m := Render(s, toks);
    assert forall k | i <= k < j :: m[k] == s[toks[k].start];
  }

  lemma WordOfCodeIsInMask(u: CharClass, d: Dialect, s: string, toks: seq<Token>, i: nat, j: nat)
    requires Sane(u) && Tokenises(u, d, s, 0, toks) && i < j && AllCode(toks, i, j)
    requires IsWordRun(u, s, toks[i].start, toks[j - 1].end)
    ensures IsWordRun(u, Render(s, toks), i, j)
  {
    var m, a := Render(s, toks), toks[i].start;
    CodeRun(u, d, s, toks, i, j);
    forall k | i <= k < j ensures u.IsWord(m[k]) {
      assert m[k] == s[toks[k].start] && toks[k].start == a + (k - i);
    }
    CodeRunEdges(u, d, s, toks, i, j);
  }

  /** The words of the mask are exactly the words of the text that are code, spelled the same. */
  lemma WordsOfMaskAreWordsOfCode(u: CharClass, d: Dialect, s: string, toks: seq<Token>, i: nat, j: nat)
    requires Sane(u) && Tokenises(u, d, s, 0, toks) && i < j <= |toks|
    ensures IsWordRun(u, Render(s, toks), i, j)
            <==> AllCode(toks, i, j) && IsWordRun(u, s, toks[i].start, toks[j - 1].end)
    ensures IsWordRun(u, Render(s, toks), i, j)
            ==> Render(s, toks)[i..j] == s[toks[i].start..toks[j - 1].end]
  {
    if IsWordRun(u, Render(s, toks), i, j) {
      WordOfMaskIsCode(u, d, s, toks, i, j);
    } else if AllCode(toks, i, j) && IsWordRun(u, s, toks[i].start, toks[j - 1].end) {
      WordOfCodeIsInMask(u, d, s, toks, i, j);
    }
  }

  /** A word of the text never straddles a border: it lies inside one comment or quoted section,
      or it is made of code from end to end, in which case the mask has it too. */
  lemma {:induction false} WordsDoNotStraddle(u: CharClass, d: Dialect, s: string, toks: seq<Token>, i: nat,
                                              a: nat, b: nat)
    returns (j: nat)
    requires Sane(u) && Tokenises(u, d, s, 0, toks) && i < |toks|
    requires toks[i].start <= a < toks[i].end && IsWordRun(u, s, a, b)
    ensures !toks[i].kind.Code? ==> b <= toks[i].end
    ensures toks[i].kind.Code? ==> i < j <= |toks| && toks[i].start == a && toks[j - 1].end == b
    ensures toks[i].kind.Code? ==> IsWordRun(u, Render(s, toks), i, j)
  {
    TokenisesAt(u, d, s, 0, toks, i);
    if toks[i].kind.Code? {
      j := i + 1;
      while toks[j - 1].end < b
        invariant i < j <= |toks| && AllCode(toks, i, j) && a < toks[j - 1].end <= b
        decreases |toks| - j
      {
        TokenisesAt(u, d, s, 0, toks, j - 1);
        TokenisesAt(u, d, s, 0, toks, j);
        assert a <= toks[j].start < b && u.IsWord(s[toks[j].start]);
        if !toks[j].kind.Code? { SectionEdges(u, d, s, toks[j]); }
        j := j + 1;
      }
      WordsOfMaskAreWordsOfCode(u, d, s, toks, i, j);
    } else {
      j := 0;
      SectionEdges(u, d, s, toks[i]);
    }
  }
}
