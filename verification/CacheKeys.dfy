/** The key strings of the cache, and why two different lookups never share one. */
module CacheKeys {
  import opened Separators
  import opened Subjects

  // --- who is asking --------------------------------------------------------------------------

  /** `"\n".join(lines)` */
  function Join(lines: seq<string>): string {
    if lines == [] then ""
    else if |lines| == 1 then lines[0]
    else lines[0] + "\n" + Join(lines[1..])
  }

  /** Python's order on strings: by code point, a prefix first. */
  predicate TextAtMost(a: string, b: string) {
    if a == [] then true
    else if b == [] then false
    else if a[0] != b[0] then a[0] < b[0]
    else TextAtMost(a[1..], b[1..])
  }

  predicate AtMost(a: Subject, b: Subject) {
    if a.kind != b.kind then a.kind.Role? else TextAtMost(a.name, b.name)
  }

  function Insert(x: Subject, sorted: seq<Subject>): seq<Subject> {
    if sorted == [] || AtMost(x, sorted[0]) then [x] + sorted else [sorted[0]] + Insert(x, sorted[1..])
  }

  function Sorted(subjects: seq<Subject>): seq<Subject> {
    if subjects == [] then [] else Insert(subjects[0], Sorted(subjects[1..]))
  }

  function Lines(subjects: seq<Subject>): seq<string> {
    seq(|subjects|, i requires 0 <= i < |subjects| => Label(subjects[i]))
  }

  /** The text that `subjects_fingerprint` hashes. */
  function FingerprintText(subjects: seq<Subject>): string {
    Join(Lines(Sorted(subjects)))
  }

  // --- the order is total, so sorting forgets the order of its input ------------------------

  lemma {:induction false} TextAtMostIsTotal(a: string, b: string)
    ensures TextAtMost(a, b) || TextAtMost(b, a)
    ensures TextAtMost(a, b) && TextAtMost(b, a) ==> a == b
  {
    if a != [] && b != [] && a[0] == b[0] {
      TextAtMostIsTotal(a[1..], b[1..]);
      assert a == [a[0]] + a[1..] && b == [b[0]] + b[1..];
    }
  }

  lemma {:induction false} TextAtMostIsTransitive(a: string, b: string, c: string)
    requires TextAtMost(a, b) && TextAtMost(b, c)
    ensures TextAtMost(a, c)
  {
    if a != [] && a[0] == b[0] == c[0] {
      TextAtMostIsTransitive(a[1..], b[1..], c[1..]);
    }
  }

  ghost predicate IsSorted(s: seq<Subject>) {
    forall i, j | 0 <= i < j < |s| :: AtMost(s[i], s[j])
  }

  lemma {:induction false} InsertHas(x: Subject, s: seq<Subject>)
    ensures multiset(Insert(x, s)) == multiset(s) + multiset{x}
    ensures forall y | y in Insert(x, s) :: y == x || y in s
  {
    if s != [] {
      assert s == [s[0]] + s[1..];
      InsertHas(x, s[1..]);
    }
  }

  lemma {:induction false} InsertSorts(x: Subject, s: seq<Subject>)
    requires IsSorted(s)
    ensures IsSorted(Insert(x, s))
  {
    if s == [] {
    } else if AtMost(x, s[0]) {
      forall i | 0 <= i < |s| ensures AtMost(x, s[i]) {
        TextAtMostIsTransitiveOn(x, s[0], s[i], i == 0);
      }
    } else {
      InsertSorts(x, s[1..]);
      TextAtMostIsTotal(x.name, s[0].name);
      var rest := Insert(x, s[1..]);
      InsertHas(x, s[1..]);
      forall i | 0 <= i < |rest| ensures AtMost(s[0], rest[i]) {
        if rest[i] != x {
          assert rest[i] in rest;
          var j :| 0 <= j < |s[1..]| && s[1..][j] == rest[i];
          assert s[j + 1] == rest[i];
        }
      }
    }
  }

  lemma TextAtMostIsTransitiveOn(a: Subject, b: Subject, c: Subject, same: bool)
    requires AtMost(a, b) && (if same then b == c else AtMost(b, c))
    ensures AtMost(a, c)
  {
    if a.kind == b.kind == c.kind && !same {
      TextAtMostIsTransitive(a.name, b.name, c.name);
    }
  }

  lemma {:induction false} SortedSorts(s: seq<Subject>)
    ensures IsSorted(Sorted(s)) && multiset(Sorted(s)) == multiset(s)
  {
    if s != [] {
      SortedSorts(s[1..]);
      InsertSorts(s[0], Sorted(s[1..]));
      InsertHas(s[0], Sorted(s[1..]));
      assert s == [s[0]] + s[1..];
    }
  }

  lemma LeastIsFirst(a: seq<Subject>, b: seq<Subject>)
    requires IsSorted(a) && IsSorted(b) && multiset(a) == multiset(b) && a != [] && b != []
    ensures a[0] == b[0]
  {
    assert a[0] in multiset(b) && b[0] in multiset(a);
    var i :| 0 <= i < |b| && b[i] == a[0];
    var j :| 0 <= j < |a| && a[j] == b[0];
    if i > 0 && j > 0 {
      assert AtMost(a[0], a[j]) && AtMost(b[0], b[i]);
      TextAtMostIsTotal(a[0].name, b[0].name);
    }
  }

  lemma TailMultiset(a: seq<Subject>)
    requires a != []
    ensures multiset(a[1..]) == multiset(a) - multiset{a[0]}
  {
    assert a == [a[0]] + a[1..];
  }

  lemma {:induction false} SortedIsUnique(a: seq<Subject>, b: seq<Subject>)
    requires IsSorted(a) && IsSorted(b) && multiset(a) == multiset(b)
    ensures a == b
  {
    assert |multiset(a)| == |multiset(b)|;
    if a != [] {
      LeastIsFirst(a, b);
      TailMultiset(a);
      TailMultiset(b);
      SortedIsUnique(a[1..], b[1..]);
      assert a == [a[0]] + a[1..] && b == [b[0]] + b[1..];
    }
  }

  // --- the text can be read back ----------------------------------------------------------------

  /** A newline at `k` with what begins a subject's line behind it. */
  predicate BreakAt(text: string, k: nat) {
    k + 6 <= |text| && text[k] == '\n' && (text[k + 1..k + 6] == "user:" || text[k + 1..k + 6] == "role:")
  }

  /** A name in which no line of another subject seems to begin. Other newlines do no harm. */
  ghost predicate NoBreak(text: string) {
    forall k: nat :: !BreakAt(text, k)
  }

  lemma LabelHasNoBreak(s: Subject)
    requires NoBreak(s.name)
    ensures NoBreak(Label(s))
  {
    var head, text := KindText(s.kind) + ":", Label(s);
    assert |head| == 5 && forall k | 0 <= k < 5 :: text[k] == head[k] != '\n';
    forall k: nat ensures !BreakAt(text, k) {
      if BreakAt(text, k) {
        assert text[k + 1..k + 6] == s.name[k - 4..k + 1] && s.name[k - 5] == '\n';
        assert BreakAt(s.name, k - 5);
      }
    }
  }

  /** Between two lines there is a break. */
  lemma JoinBreaks(subjects: seq<Subject>)
    requires |subjects| > 1
    ensures Join(Lines(subjects)) == Label(subjects[0]) + "\n" + Join(Lines(subjects[1..]))
    ensures BreakAt(Join(Lines(subjects)), |Label(subjects[0])|)
  {
    var first, rest := Label(subjects[0]), subjects[1..];
    assert Lines(subjects)[1..] == Lines(rest);
    var text := Join(Lines(subjects));
    var head := KindText(rest[0].kind) + ":";
    JoinStarts(rest);
    assert text == first + "\n" + Join(Lines(rest));
    assert text[|first| + 1..|first| + 6] == Join(Lines(rest))[..5] == head;
  }

  lemma JoinStarts(subjects: seq<Subject>)
    requires subjects != []
    ensures Label(subjects[0]) <= Join(Lines(subjects))
    ensures |Label(subjects[0])| >= 5 && Join(Lines(subjects))[..5] == KindText(subjects[0].kind) + ":"
  {
    assert Lines(subjects)[0] == Label(subjects[0]);
    assert Label(subjects[0])[..5] == KindText(subjects[0].kind) + ":";
  }

  /** A text with a break after `a` cannot begin with a longer line that has none. */
  lemma BreakIsLater(text: string, a: nat, line: string)
    requires BreakAt(text, a) && NoBreak(line) && line <= text
    requires |line| < |text| ==> text[|line|] == '\n'
    ensures |line| <= a
  {
    var head := text[a + 1..a + 6];
    assert forall k | 0 <= k < 5 :: text[a + 1 + k] == head[k] != '\n';
    if a + 6 <= |line| {
      BreakInPrefix(text, a, line);
    }
  }

  lemma BreakInPrefix(text: string, a: nat, line: string)
    requires BreakAt(text, a) && line <= text && a + 6 <= |line|
    ensures BreakAt(line, a)
  {
    assert line[a + 1..a + 6] == text[a + 1..a + 6];
  }

  ghost predicate NoBreaks(subjects: seq<Subject>) {
    forall s | s in subjects :: NoBreak(s.name)
  }

  /** The first line of a text is the first subject's. */
  lemma FirstLine(subjects: seq<Subject>, text: string)
    requires NoBreaks(subjects) && subjects != [] && text == Join(Lines(subjects))
    ensures NoBreak(Label(subjects[0])) && Label(subjects[0]) <= text
    ensures |Label(subjects[0])| < |text| ==> BreakAt(text, |Label(subjects[0])|)
    ensures |subjects| == 1 <==> |Label(subjects[0])| == |text|
  {
    LabelHasNoBreak(subjects[0]);
    JoinStarts(subjects);
    if |subjects| > 1 {
      JoinBreaks(subjects);
    } else {
      assert Lines(subjects) == [Label(subjects[0])];
    }
  }

  lemma FirstIsUnique(a: seq<Subject>, b: seq<Subject>)
    requires NoBreaks(a) && NoBreaks(b) && a != [] && b != [] && Join(Lines(a)) == Join(Lines(b))
    ensures a[0] == b[0] && (|a| == 1 <==> |b| == 1)
  {
    var text := Join(Lines(a));
    FirstLine(a, text);
    FirstLine(b, text);
    var x, y := Label(a[0]), Label(b[0]);
    if |x| < |text| { BreakIsLater(text, |x|, y); }
    if |y| < |text| { BreakIsLater(text, |y|, x); }
    assert x == text[..|x|] && y == text[..|y|];
    LabelIsUnique(a[0], b[0]);
  }

  lemma {:induction false} JoinIsUnique(a: seq<Subject>, b: seq<Subject>)
    requires NoBreaks(a) && NoBreaks(b) && Join(Lines(a)) == Join(Lines(b))
    ensures a == b
    decreases |a|
  {
    if a != [] { JoinStarts(a); }
    if b != [] { JoinStarts(b); }
    if a != [] && b != [] {
      FirstIsUnique(a, b);
      assert a == [a[0]] + a[1..] && b == [b[0]] + b[1..];
      if |a| > 1 {
        JoinBreaks(a);
        JoinBreaks(b);
        var n := |Label(a[0])| + 1;
        assert Join(Lines(a[1..])) == Join(Lines(a))[n..] == Join(Lines(b[1..]));
        JoinIsUnique(a[1..], b[1..]);
      }
    }
  }

  /** The hashed text says which subjects there are, and nothing about their order. */
  lemma FingerprintTextIff(a: seq<Subject>, b: seq<Subject>)
    requires NoBreaks(a) && NoBreaks(b)
    ensures FingerprintText(a) == FingerprintText(b) <==> multiset(a) == multiset(b)
  {
    SortedSorts(a);
    SortedSorts(b);
    if multiset(a) == multiset(b) {
      SortedIsUnique(Sorted(a), Sorted(b));
    }
    if FingerprintText(a) == FingerprintText(b) {
      SortedHasNoBreaks(a);
      SortedHasNoBreaks(b);
      JoinIsUnique(Sorted(a), Sorted(b));
    }
  }

  lemma SortedHasNoBreaks(subjects: seq<Subject>)
    requires NoBreaks(subjects)
    ensures NoBreaks(Sorted(subjects))
  {
    SortedSorts(subjects);
    forall s | s in Sorted(subjects) ensures NoBreak(s.name) {
      assert s in multiset(Sorted(subjects));
      assert s in subjects;
    }
  }

  // --- any names at all ---------------------------------------------------------------------------

  /** The first break at or after `k`, or the end. */
  function NextBreak(text: string, k: nat): (r: nat)
    requires k <= |text|
    ensures k <= r <= |text| && (r < |text| ==> BreakAt(text, r))
    ensures forall j | k <= j < r :: !BreakAt(text, j)
    decreases |text| - k
  {
    if k == |text| || BreakAt(text, k) then k else NextBreak(text, k + 1)
  }

  /** A text cut at every break. */
  function Pieces(text: string): (r: seq<string>)
    ensures r != []
    decreases |text|
  {
    var k := NextBreak(text, 0);
    if k == |text| then [text] else [text[..k]] + Pieces(text[k + 1..])
  }

  /** The labels of a list, cut at every break. */
  function AllPieces(subjects: seq<Subject>): seq<string> {
    if subjects == [] then [] else Pieces(Label(subjects[0])) + AllPieces(subjects[1..])
  }

  lemma NextBreakIs(text: string, k: nat)
    requires k <= |text| && (k < |text| ==> BreakAt(text, k)) && forall j | 0 <= j < k :: !BreakAt(text, j)
    ensures NextBreak(text, 0) == k
  {
    var r := NextBreak(text, 0);
  }

  /** In front of a break, the breaks are those of the text before it. */
  lemma BreaksBefore(x: string, rest: string, k: nat)
    requires k < |x|
    ensures BreakAt(x + "\n" + rest, k) <==> BreakAt(x, k)
  {
    var text := x + "\n" + rest;
    if k + 6 <= |x| {
      assert text[k + 1..k + 6] == x[k + 1..k + 6];
    } else if k + 6 <= |text| {
      assert text[k + 1..k + 6][|x| - k - 1] == '\n';
    }
  }

  /** Cutting a text at a break and cutting what is on both sides comes to the same. */
  lemma {:induction false} PiecesOfBoth(x: string, rest: string)
    requires BreakAt(x + "\n" + rest, |x|)
    ensures Pieces(x + "\n" + rest) == Pieces(x) + Pieces(rest)
    decreases |x|
  {
    var text, k := x + "\n" + rest, NextBreak(x, 0);
    forall j | 0 <= j < |x| ensures BreakAt(text, j) <==> BreakAt(x, j) { BreaksBefore(x, rest, j); }
    NextBreakIs(text, k);
    assert text[..k] == x[..k];
    if k == |x| {
      assert text[k + 1..] == rest && x[..k] == x;
    } else {
      BreakBehind(x, rest, k);
      PiecesOfBoth(x[k + 1..], rest);
    }
  }

  lemma BreakBehind(x: string, rest: string, k: nat)
    requires BreakAt(x + "\n" + rest, |x|) && k < |x|
    ensures (x + "\n" + rest)[k + 1..] == x[k + 1..] + "\n" + rest
    ensures BreakAt(x[k + 1..] + "\n" + rest, |x[k + 1..]|)
  {
    var text, y := x + "\n" + rest, x[k + 1..];
    assert text[k + 1..] == y + "\n" + rest;
    assert text[|x| + 1..|x| + 6] == (y + "\n" + rest)[|y| + 1..|y| + 6];
  }

  lemma {:induction false} PiecesOfJoin(subjects: seq<Subject>)
    requires subjects != []
    ensures Pieces(Join(Lines(subjects))) == AllPieces(subjects)
  {
    if |subjects| == 1 {
      assert Lines(subjects) == [Label(subjects[0])] && AllPieces(subjects[1..]) == [];
    } else {
      JoinBreaks(subjects);
      PiecesOfBoth(Label(subjects[0]), Join(Lines(subjects[1..])));
      PiecesOfJoin(subjects[1..]);
    }
  }

  /** Pieces can be joined again. */
  lemma {:induction false} JoinPieces(text: string)
    ensures Join(Pieces(text)) == text
    decreases |text|
  {
    var k := NextBreak(text, 0);
    if k < |text| {
      JoinPieces(text[k + 1..]);
      assert ([text[..k]] + Pieces(text[k + 1..]))[1..] == Pieces(text[k + 1..]);
      assert text == text[..k] + "\n" + text[k + 1..];
    }
  }

  /** With names of any kind: two lists are hashed from the same text if and only if their labels in
      order, cut at every break, give the same pieces. */
  lemma SameTextIff(a: seq<Subject>, b: seq<Subject>)
    ensures FingerprintText(a) == FingerprintText(b) <==> AllPieces(Sorted(a)) == AllPieces(Sorted(b))
  {
    TextOrNothing(Sorted(a));
    TextOrNothing(Sorted(b));
  }

  lemma TextOrNothing(subjects: seq<Subject>)
    ensures subjects == [] <==> AllPieces(subjects) == []
    ensures subjects == [] <==> Join(Lines(subjects)) == ""
    ensures subjects != [] ==> Pieces(Join(Lines(subjects))) == AllPieces(subjects)
    ensures Join(AllPieces(subjects)) == Join(Lines(subjects))
  {
    if subjects != [] {
      JoinStarts(subjects);
      PiecesOfJoin(subjects);
      JoinPieces(Join(Lines(subjects)));
    }
  }

  lemma TextOfOne(x: Subject)
    ensures FingerprintText([x]) == Label(x)
  {
    assert [x][1..] == [] && Sorted([]) == [] && Sorted([x]) == [x];
    assert Lines([x]) == [Label(x)];
  }

  lemma TextOfTwo(x: Subject, y: Subject)
    requires AtMost(x, y)
    ensures FingerprintText([x, y]) == Label(x) + "\n" + Label(y)
  {
    assert [y][1..] == [] && Sorted([]) == [] && Sorted([y]) == [y];
    assert [x, y][1..] == [y] && Sorted([x, y]) == [x, y];
    JoinBreaks([x, y]);
    assert Lines([y]) == [Label(y)];
  }

  /** A name with a break in it reads like two subjects, whenever the two are in order. */
  lemma BreaksMakeTextAmbiguous(x: Subject, y: Subject)
    requires AtMost(x, y)
    ensures var one := Subject(x.kind, x.name + "\n" + Label(y));
            && FingerprintText([one]) == FingerprintText([x, y])
            && multiset([one]) != multiset([x, y])
            && !NoBreak(one.name)
  {
    var one := Subject(x.kind, x.name + "\n" + Label(y));
    TextOfOne(one);
    TextOfTwo(x, y);
    assert Label(one) == Label(x) + "\n" + Label(y);
    assert |multiset([x, y])| == 2 && |multiset([one])| == 1;
    assert one.name[|x.name| + 1..|x.name| + 6] == Label(y)[..5] == KindText(y.kind) + ":";
    assert BreakAt(one.name, |x.name|);
  }

  // --- keys -------------------------------------------------------------------------------------

  /** Everything that is looked up through the cache, by what the question is about. */
  datatype Question =
    | ListConnections(subjects: seq<Subject>)
    | AllowedTables(connection: string, subjects: seq<Subject>)
    | AllowedTools(subjects: seq<Subject>)
    | Descriptions(connection: string)
    | ListTables(connection: string, updatedAt: string)
    | DescribeTable(connection: string, updatedAt: string, table: string)

  datatype Family = Meta | Schema

  /** Everything that is stored in Redis. */
  datatype Slot =
    | Answer(version: nat, question: Question)
    | Counter(family: Family)
    | Token(token: string)

  /** The library functions in the keys: the truncated hash and case folding. */
  datatype Library = Library(fingerprint: string -> string, tokenHash: string -> string, fold: string -> string)

  ghost predicate HashesWell(lib: Library) {
    && (forall a, b {:trigger lib.fingerprint(a), lib.fingerprint(b)} ::
          lib.fingerprint(a) == lib.fingerprint(b) ==> a == b)
    && (forall a, b {:trigger lib.tokenHash(a), lib.tokenHash(b)} :: lib.tokenHash(a) == lib.tokenHash(b) ==> a == b)
    && (forall a {:trigger lib.fingerprint(a)} :: Without(':', lib.fingerprint(a)))
  }

  function FamilyOf(q: Question): Family {
    if q.ListTables? || q.DescribeTable? then Schema else Meta
  }

  function FamilyText(f: Family): string {
    match f
    case Meta => "meta"
    case Schema => "schema"
  }

  function Digit(n: nat): char
    requires n < 10
  {
    "0123456789"[n]
  }

  /** `str(n)` */
  function Decimal(n: nat): string {
    if n < 10 then [Digit(n)] else Decimal(n / 10) + [Digit(n % 10)]
  }

  function Field(head: string, rest: string): string {
    head + ":" + rest
  }

  function QuestionText(lib: Library, q: Question): string {
    match q
    case ListConnections(s) => Field("connections", lib.fingerprint(FingerprintText(s)))
    case AllowedTables(c, s) => Field("tables", Field(c, lib.fingerprint(FingerprintText(s))))
    case AllowedTools(s) => Field("tools", lib.fingerprint(FingerprintText(s)))
    case Descriptions(c) => Field("descriptions", c)
    case ListTables(c, at) => Field(c, Field(at, "tables"))
    case DescribeTable(c, at, t) => Field(c, Field(at, Field("table", lib.fold(t))))
  }

  function SlotHead(slot: Slot): string {
    match slot
    case Answer(_, q) => FamilyText(FamilyOf(q))
    case Counter(_) => "version"
    case Token(_) => "token"
  }

  function SlotTail(lib: Library, slot: Slot): string {
    match slot
    case Answer(v, q) => Field(Decimal(v), QuestionText(lib, q))
    case Counter(f) => FamilyText(f)
    case Token(t) => lib.tokenHash(t)
  }

  function RedisKey(lib: Library, slot: Slot): string {
    Field("mcpsql", Field(SlotHead(slot), SlotTail(lib, slot)))
  }

  /** Identifiers and time stamps have no colon, names no break; table names may have anything. */
  ghost predicate Clean(q: Question) {
    match q
    case ListConnections(s) => NoBreaks(s)
    case AllowedTables(c, s) => Without(':', c) && NoBreaks(s)
    case AllowedTools(s) => NoBreaks(s)
    case Descriptions(c) => Without(':', c)
    case ListTables(c, at) => Without(':', c) && Without(':', at)
    case DescribeTable(c, at, _) => Without(':', c) && Without(':', at)
  }

  /** The same question, up to the order of the subjects and the case of the table name. */
  ghost predicate SameQuestion(lib: Library, p: Question, q: Question) {
    match (p, q)
    case (ListConnections(s), ListConnections(t)) => multiset(s) == multiset(t)
    case (AllowedTables(c, s), AllowedTables(e, t)) => c == e && multiset(s) == multiset(t)
    case (AllowedTools(s), AllowedTools(t)) => multiset(s) == multiset(t)
    case (Descriptions(c), Descriptions(e)) => c == e
    case (ListTables(c, a), ListTables(e, b)) => c == e && a == b
    case (DescribeTable(c, a, s), DescribeTable(e, b, t)) => c == e && a == b && lib.fold(s) == lib.fold(t)
    case _ => false
  }

  ghost predicate SameSlot(lib: Library, a: Slot, b: Slot) {
    match (a, b)
    case (Answer(v, p), Answer(w, q)) => v == w && SameQuestion(lib, p, q)
    case _ => a == b
  }

  lemma {:induction false} DecimalIsClean(n: nat)
    ensures Decimal(n) != [] && Without(':', Decimal(n))
  {
    if n >= 10 {
      DecimalIsClean(n / 10);
    }
  }

  lemma DecimalEnds(n: nat)
    ensures var d := Decimal(n); d != [] && d[|d| - 1] == Digit(n % 10)
    ensures n >= 10 ==> Decimal(n)[..|Decimal(n)| - 1] == Decimal(n / 10) && |Decimal(n)| > 1
    ensures n < 10 ==> |Decimal(n)| == 1
  {
    DecimalIsClean(n / 10);
  }

  lemma {:induction false} DecimalIsUnique(m: nat, n: nat)
    requires Decimal(m) == Decimal(n)
    ensures m == n
    decreases m
  {
    DecimalEnds(m);
    DecimalEnds(n);
    assert m % 10 == n % 10;
    if m >= 10 && n >= 10 {
      DecimalIsUnique(m / 10, n / 10);
    }
  }

  lemma FieldIsUnique(a: string, x: string, b: string, y: string)
    requires Without(':', a) && Without(':', b)
    ensures Field(a, x) == Field(b, y) <==> a == b && x == y
  {
    if Field(a, x) == Field(b, y) {
      CutIsUnique(':', a, x, b, y);
    }
  }

  function QuestionHead(q: Question): string {
    match q
    case ListConnections(_) => "connections"
    case AllowedTables(_, _) => "tables"
    case AllowedTools(_) => "tools"
    case Descriptions(_) => "descriptions"
    case ListTables(c, _) => c
    case DescribeTable(c, _, _) => c
  }

  function QuestionTail(lib: Library, q: Question): string {
    match q
    case ListConnections(s) => lib.fingerprint(FingerprintText(s))
    case AllowedTables(c, s) => Field(c, lib.fingerprint(FingerprintText(s)))
    case AllowedTools(s) => lib.fingerprint(FingerprintText(s))
    case Descriptions(c) => c
    case ListTables(_, at) => Field(at, "tables")
    case DescribeTable(_, at, t) => Field(at, Field("table", lib.fold(t)))
  }

  lemma FingerprintIff(lib: Library, a: seq<Subject>, b: seq<Subject>)
    requires HashesWell(lib) && NoBreaks(a) && NoBreaks(b)
    ensures lib.fingerprint(FingerprintText(a)) == lib.fingerprint(FingerprintText(b)) <==> multiset(a) == multiset(b)
  {
    FingerprintTextIff(a, b);
  }

  lemma MetaQuestionsDiffer(lib: Library, p: Question, q: Question)
    requires HashesWell(lib) && Clean(p) && Clean(q) && FamilyOf(p) == FamilyOf(q) == Meta
    ensures QuestionText(lib, p) == QuestionText(lib, q) <==> SameQuestion(lib, p, q)
  {
    FieldIsUnique(QuestionHead(p), QuestionTail(lib, p), QuestionHead(q), QuestionTail(lib, q));
    match (p, q)
    case (ListConnections(s), ListConnections(t)) => FingerprintIff(lib, s, t);
    case (AllowedTables(c, s), AllowedTables(e, t)) =>
      FingerprintIff(lib, s, t);
      FieldIsUnique(c, lib.fingerprint(FingerprintText(s)), e, lib.fingerprint(FingerprintText(t)));
    case (AllowedTools(s), AllowedTools(t)) => FingerprintIff(lib, s, t);
    case _ =>
  }

  lemma SchemaQuestionsDiffer(lib: Library, p: Question, q: Question)
    requires Clean(p) && Clean(q) && FamilyOf(p) == FamilyOf(q) == Schema
    ensures QuestionText(lib, p) == QuestionText(lib, q) <==> SameQuestion(lib, p, q)
  {
    var x := if p.ListTables? then "tables" else Field("table", lib.fold(p.table));
    var y := if q.ListTables? then "tables" else Field("table", lib.fold(q.table));
    FieldIsUnique(p.connection, Field(p.updatedAt, x), q.connection, Field(q.updatedAt, y));
    FieldIsUnique(p.updatedAt, x, q.updatedAt, y);
    if p.DescribeTable? && q.DescribeTable? {
      FieldIsUnique("table", lib.fold(p.table), "table", lib.fold(q.table));
    } else if p.DescribeTable? {
      assert x[5] == ':' && "tables"[5] == 's';
    } else if q.DescribeTable? {
      assert y[5] == ':' && "tables"[5] == 's';
    }
  }

  lemma QuestionsDiffer(lib: Library, p: Question, q: Question)
    requires HashesWell(lib) && Clean(p) && Clean(q) && FamilyOf(p) == FamilyOf(q)
    ensures QuestionText(lib, p) == QuestionText(lib, q) <==> SameQuestion(lib, p, q)
  {
    if FamilyOf(p).Meta? {
      MetaQuestionsDiffer(lib, p, q);
    } else {
      SchemaQuestionsDiffer(lib, p, q);
    }
  }

  lemma AnswersDiffer(lib: Library, v: nat, p: Question, w: nat, q: Question)
    requires HashesWell(lib) && Clean(p) && Clean(q) && FamilyOf(p) == FamilyOf(q)
    ensures Field(Decimal(v), QuestionText(lib, p)) == Field(Decimal(w), QuestionText(lib, q))
            <==> v == w && SameQuestion(lib, p, q)
  {
    DecimalIsClean(v);
    DecimalIsClean(w);
    FieldIsUnique(Decimal(v), QuestionText(lib, p), Decimal(w), QuestionText(lib, q));
    QuestionsDiffer(lib, p, q);
    if Decimal(v) == Decimal(w) {
      DecimalIsUnique(v, w);
    }
  }

  /** Two things share a Redis key exactly when they are the same: one question under one version,
      one family's counter, or one token. */
  lemma KeysNeverMix(lib: Library, a: Slot, b: Slot)
    requires HashesWell(lib)
    requires a.Answer? ==> Clean(a.question)
    requires b.Answer? ==> Clean(b.question)
    ensures RedisKey(lib, a) == RedisKey(lib, b) <==> SameSlot(lib, a, b)
  {
    FieldIsUnique("mcpsql", Field(SlotHead(a), SlotTail(lib, a)), "mcpsql", Field(SlotHead(b), SlotTail(lib, b)));
    FieldIsUnique(SlotHead(a), SlotTail(lib, a), SlotHead(b), SlotTail(lib, b));
    if a.Answer? && b.Answer? {
      if FamilyOf(a.question) == FamilyOf(b.question) {
        AnswersDiffer(lib, a.version, a.question, b.version, b.question);
      }
    }
  }
}
