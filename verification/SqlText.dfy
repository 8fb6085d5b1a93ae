/** Python's string operations that the query validator leans on: `find`, `strip`, `rstrip`.
    Character classes are parameters, because the tables behind `isalnum` and `isspace` are
    not part of this model; `Sane` lists the few facts about them that the proofs use. */
module SqlText {

  datatype CharClass = CharClass(isAlnum: char -> bool, isSpace: char -> bool) {
    /** What a regular expression calls a word character, and what `$` looks back at. */
    predicate IsWord(c: char) {
      isAlnum(c) || c == '_'
    }
  }

  const DELIMITERS := "-#/*!'\"`[]$;?\\"

  ghost predicate Sane(u: CharClass) {
    && (forall c {:trigger u.isAlnum(c)} | c in DELIMITERS :: !u.isAlnum(c))
    && (forall c {:trigger u.isSpace(c)} | c in DELIMITERS :: !u.isSpace(c))
    && u.isSpace(' ') && !u.isAlnum(' ')
    && u.isSpace('\n') && !u.isAlnum('\n')
  }

  predicate OccursAt(s: string, pat: string, k: nat) {
    k + |pat| <= |s| && s[k..k + |pat|] == pat
  }

  /** `s.find(pat, from)` */
  function Find(s: string, pat: string, from: nat): (r: int)
    ensures r >= 0 ==> from <= r <= r + |pat| <= |s|
    decreases |s| - from
  {
    if from > |s| then -1
    else if OccursAt(s, pat, from) then from
    else Find(s, pat, from + 1)
  }

  /** `find` gives the first occurrence at or after `from`, and a negative number when there is none. */
  lemma {:induction false} FindIsFirst(s: string, pat: string, from: nat)
    ensures Find(s, pat, from) < 0 ==> forall k | from <= k :: !OccursAt(s, pat, k)
    ensures Find(s, pat, from) >= 0 ==> OccursAt(s, pat, Find(s, pat, from))
    ensures forall k | from <= k < Find(s, pat, from) :: !OccursAt(s, pat, k)
    decreases |s| - from
  {
    if from <= |s| && !OccursAt(s, pat, from) {
      FindIsFirst(s, pat, from + 1);
    }
  }

  predicate AllSpace(u: CharClass, s: string) {
    forall k | 0 <= k < |s| :: u.isSpace(s[k])
  }

  function Rstrip(u: CharClass, s: string): string {
    if s != [] && u.isSpace(s[|s| - 1]) then Rstrip(u, s[..|s| - 1]) else s
  }

  function Lstrip(u: CharClass, s: string): string {
    if s != [] && u.isSpace(s[0]) then Lstrip(u, s[1..]) else s
  }

  /** `s.strip()` */
  function Strip(u: CharClass, s: string): string {
    Lstrip(u, Rstrip(u, s))
  }

  /** `s.rstrip(";")` */
  function DropSemicolons(s: string): string {
    if s != [] && s[|s| - 1] == ';' then DropSemicolons(s[..|s| - 1]) else s
  }

  // --- what stripping removes and keeps -------------------------------------------------------

  ghost predicate EndsSolid(u: CharClass, s: string) {
    s == [] || !u.isSpace(s[|s| - 1])
  }

  lemma {:induction false} RstripIs(u: CharClass, s: string)
    ensures var r := Rstrip(u, s); r <= s && EndsSolid(u, r) && forall k | |r| <= k < |s| :: u.isSpace(s[k])
  {
    if s != [] && u.isSpace(s[|s| - 1]) {
      RstripIs(u, s[..|s| - 1]);
    }
  }

  lemma {:induction false} LstripIs(u: CharClass, s: string)
    ensures var r := Lstrip(u, s); r == [] || (!u.isSpace(r[0]) && r[|r| - 1] == s[|s| - 1])
    ensures AllSpace(u, s) <==> Lstrip(u, s) == []
    ensures |Lstrip(u, s)| <= |s|
  {
    if s != [] && u.isSpace(s[0]) {
      LstripIs(u, s[1..]);
      assert s == [s[0]] + s[1..];
    }
  }

  lemma {:induction false} RstripAppend(u: CharClass, s: string, w: string)
    requires AllSpace(u, w)
    ensures Rstrip(u, s + w) == Rstrip(u, s)
  {
    if w == [] {
      assert s + w == s;
    } else {
      var v := w[..|w| - 1];
      assert (s + w)[..|s + w| - 1] == s + v;
      RstripAppend(u, s, v);
    }
  }

  lemma {:induction false} LstripAppend(u: CharClass, s: string, t: string)
    ensures Lstrip(u, s + t) == if AllSpace(u, s) then Lstrip(u, t) else Lstrip(u, s) + t
  {
    if s == [] {
      assert s + t == t;
    } else if u.isSpace(s[0]) {
      assert (s + t)[1..] == s[1..] + t;
      assert AllSpace(u, s) <==> AllSpace(u, s[1..]) by { assert s == [s[0]] + s[1..]; }
      LstripAppend(u, s[1..], t);
    }
  }

  lemma RstripSolid(u: CharClass, s: string)
    requires EndsSolid(u, s)
    ensures Rstrip(u, s) == s
  {
  }

  lemma LstripEndsSolid(u: CharClass, s: string)
    requires EndsSolid(u, s)
    ensures EndsSolid(u, Lstrip(u, s))
  {
    LstripIs(u, s);
  }

  /** Stripping the right end commutes with stripping the left end. */
  lemma StripsCommute(u: CharClass, s: string)
    ensures Rstrip(u, Lstrip(u, s)) == Strip(u, s)
  {
    RstripIs(u, s);
    var r := Rstrip(u, s);
    var w := s[|r|..];
    assert s == r + w;
    assert AllSpace(u, w);
    LstripAppend(u, r, w);
    LstripEndsSolid(u, r);
    RstripSolid(u, Lstrip(u, r));
    if AllSpace(u, r) {
      LstripIs(u, r);
      LstripIs(u, w);
      assert Lstrip(u, s) == [];
    } else {
      RstripAppend(u, Lstrip(u, r), w);
    }
  }

  lemma StripIsIdempotent(u: CharClass, s: string)
    ensures Strip(u, Strip(u, s)) == Strip(u, s)
  {
    RstripIs(u, s);
    LstripIs(u, Rstrip(u, s));
  }

  lemma StripOfLstrip(u: CharClass, s: string)
    ensures Strip(u, Lstrip(u, s)) == Strip(u, s)
  {
    StripsCommute(u, s);
    StripsCommute(u, Lstrip(u, s));
    LstripIs(u, s);
  }

  lemma {:induction false} DropSemicolonsAppend(s: string)
    ensures DropSemicolons(s + ";") == DropSemicolons(s)
  {
    assert (s + ";")[..|s|] == s;
  }
}
