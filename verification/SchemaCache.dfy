/** The schema cache in front of an adapter: `describe_table` is stored under the folded name, and the
    question is when callers cannot tell. */
module SchemaCache {
  import opened Results
  import opened SchemaService

  /** A call, and whether the cache was able to answer at that moment. */
  datatype Call = Call(table: string, cacheAnswers: bool)

  type Cache = map<string, Table>

  /** One call through the cache: the answer, and the cache after it. Errors are not stored. */
  function Describe(lib: Library, db: Database, cache: Cache, call: Call): (Result<Table, Error>, Cache) {
    var key := lib.fold(call.table);
    if call.cacheAnswers && key in cache then (Ok(cache[key]), cache)
    else
      match Lookup(lib, db, call.table)
      case Ok(t) => (Ok(t), cache[key := t])
      case Err(e) => (Err(e), cache)
  }

  function Answers(lib: Library, db: Database, cache: Cache, calls: seq<Call>): seq<Result<Table, Error>>
    decreases |calls|
  {
    if calls == [] then []
    else
      var (answer, next) := Describe(lib, db, cache, calls[0]);
      [answer] + Answers(lib, db, next, calls[1..])
  }

  function DirectAnswers(lib: Library, db: Database, calls: seq<Call>): seq<Result<Table, Error>> {
    if calls == [] then [] else [Lookup(lib, db, calls[0].table)] + DirectAnswers(lib, db, calls[1..])
  }

  /** No two exposed tables have names that are equal up to case. */
  ghost predicate FoldsApart(lib: Library, db: Database) {
    forall i, j | 0 <= i < j < |db| :: lib.fold(db[i].name) != lib.fold(db[j].name)
  }

  /** When names fold apart, the folded name is all that a successful lookup depends on. */
  lemma LookupByFold(lib: Library, db: Database, name: string, t: Table, other: string)
    requires FoldsApart(lib, db) && Lookup(lib, db, name) == Ok(t) && lib.fold(name) == lib.fold(other)
    ensures Lookup(lib, db, other) == Ok(t)
  {
    IndexOfSpelled(db, name);
    IndexOfSpelled(db, other);
    var i := FoldedAt(lib, db, name, t);
    OnlyMatch(lib, db, other, i);
    match IndexOf(db, other)
    case Some(j) => assert lib.fold(db[j].name) == lib.fold(other);
    case None =>
  }

  lemma FoldedAt(lib: Library, db: Database, name: string, t: Table) returns (i: nat)
    requires Lookup(lib, db, name) == Ok(t)
    ensures i < |db| && db[i] == t && lib.fold(t.name) == lib.fold(name)
  {
    IndexOfSpelled(db, name);
    match IndexOf(db, name)
    case Some(j) => i := j;
    case None => i := MatchAt(lib, db, name, 0);
  }

  lemma {:induction false} MatchAt(lib: Library, db: Database, name: string, k: nat) returns (i: nat)
    requires k < |Matches(lib, db, name)|
    ensures i < |db| && db[i] == Matches(lib, db, name)[k] && lib.fold(db[i].name) == lib.fold(name)
    decreases |db|
  {
    if lib.fold(db[0].name) == lib.fold(name) {
      if k == 0 {
        i := 0;
      } else {
        i := MatchAt(lib, db[1..], name, k - 1);
        i := i + 1;
      }
    } else {
      i := MatchAt(lib, db[1..], name, k);
      i := i + 1;
    }
  }

  ghost predicate Faithful(lib: Library, db: Database, cache: Cache) {
    forall key, name | key in cache && lib.fold(name) == key :: Lookup(lib, db, name) == Ok(cache[key])
  }

  lemma {:induction false} FaithfulAnswers(lib: Library, db: Database, cache: Cache, calls: seq<Call>)
    requires FoldsApart(lib, db) && Faithful(lib, db, cache)
    ensures Answers(lib, db, cache, calls) == DirectAnswers(lib, db, calls)
    decreases |calls|
  {
    if calls != [] {
      var (answer, next) := Describe(lib, db, cache, calls[0]);
      if Lookup(lib, db, calls[0].table).Ok? {
        var t := Lookup(lib, db, calls[0].table).value;
        forall name | lib.fold(name) == lib.fold(calls[0].table) ensures Lookup(lib, db, name) == Ok(t) {
          LookupByFold(lib, db, calls[0].table, t, name);
        }
      }
      FaithfulAnswers(lib, db, next, calls[1..]);
    }
  }

  /** The cache agrees with the adapter, whatever is called in whatever spelling and whenever entries
      come and go, errors included, exactly when no two exposed names are equal up to case. */
  lemma CacheIsTransparentIff(lib: Library, db: Database)
    requires NamesAreUnique(db)
    ensures (forall calls :: Answers(lib, db, map[], calls) == DirectAnswers(lib, db, calls)) <==> FoldsApart(lib, db)
  {
    if FoldsApart(lib, db) {
      forall calls ensures Answers(lib, db, map[], calls) == DirectAnswers(lib, db, calls) {
        FaithfulAnswers(lib, db, map[], calls);
      }
    } else {
      var i, j :| 0 <= i < j < |db| && lib.fold(db[i].name) == lib.fold(db[j].name);
      TwoSpellingsDiffer(lib, db, i, j);
    }
  }

  /** The second of two such tables is answered with the first. */
  lemma TwoSpellingsDiffer(lib: Library, db: Database, i: nat, j: nat)
    requires NamesAreUnique(db) && i < j < |db| && lib.fold(db[i].name) == lib.fold(db[j].name)
    ensures var calls := [Call(db[i].name, true), Call(db[j].name, true)];
            Answers(lib, db, map[], calls) == [Ok(db[i]), Ok(db[i])]
            && DirectAnswers(lib, db, calls) == [Ok(db[i]), Ok(db[j])]
            && Answers(lib, db, map[], calls) != DirectAnswers(lib, db, calls)
  {
    IndexOfUnique(db, i);
    IndexOfUnique(db, j);
    var first, second := Call(db[i].name, true), Call(db[j].name, true);
    var calls := [first, second];
    assert calls[1..] == [second] && [second][1..] == [];
    var cache: Cache := map[lib.fold(db[i].name) := db[i]];
    assert map[][lib.fold(db[i].name) := db[i]] == cache;
    assert Answers(lib, db, cache, [second]) == [Ok(db[i])];
    assert DirectAnswers(lib, db, [second]) == [Ok(db[j])];
    assert Answers(lib, db, map[], calls) == [Ok(db[i])] + [Ok(db[i])];
    assert DirectAnswers(lib, db, calls) == [Ok(db[i])] + [Ok(db[j])];
    assert Answers(lib, db, map[], calls)[1] != DirectAnswers(lib, db, calls)[1];
  }
}
