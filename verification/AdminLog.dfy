/** The admin log as a history: replaying its entries gives the grants back. The log names
    connections and writes subjects as text, so the grants are compared in those terms. */
module AdminLog {
  import opened Results
  import opened Subjects
  import opened GrantApi

  /** Grants as the log can tell them: connection names and subject labels. */
  datatype History = History(
    access: set<(string, string)>,
    tables: set<(string, string, string)>,
    tools: set<(string, string)>)

  function Pairs<A(==), B(==)>(a: A, names: set<B>): set<(A, B)> {
    set n | n in names :: (a, n)
  }

  function Triples<A(==), B(==), C(==)>(a: A, b: B, names: set<C>): set<(A, B, C)> {
    set n | n in names :: (a, b, n)
  }

  function Replay(h: History, entry: LogEntry): History {
    match entry
    case TablesChanged(c, s, granted, revoked) =>
      h.(tables := h.tables + Triples(c, s, granted) - Triples(c, s, revoked))
    case ToolsChanged(kind, id, granted, revoked) =>
      h.(tools := h.tools + Pairs(kind + ":" + id, granted) - Pairs(kind + ":" + id, revoked))
    case AccessChanged(c, granted, revoked) =>
      h.(access := h.access + Pairs(c, granted) - Pairs(c, revoked))
    case ConnectionCreated(_) => h
    case ConnectionDeleted(c) =>
      h.(access := (set a | a in h.access && a.0 != c), tables := (set t | t in h.tables && t.0 != c))
  }

  function ReplayAll(h: History, entries: seq<LogEntry>): History
    decreases |entries|
  {
    if entries == [] then h else ReplayAll(Replay(h, entries[0]), entries[1..])
  }

  // --- what the database guarantees --------------------------------------------------------------

  /** Grants belong to existing connections, and no two connections have one name. */
  ghost predicate Linked(db: Db) {
    && (forall a | a in db.access :: a.0 in db.connections)
    && (forall t | t in db.tables :: t.0 in db.connections)
    && (forall c, d | c in db.connections && d in db.connections && db.connections[c] == db.connections[d] :: c == d)
  }

  /** How the log writes a connection down. */
  function NameOf(connections: map<nat, string>, c: nat): string {
    if c in connections then connections[c] else ""
  }

  function WriteAccess(connections: map<nat, string>, a: (nat, Subject)): (string, string) {
    (NameOf(connections, a.0), Label(a.1))
  }

  function WriteTable(connections: map<nat, string>, t: (nat, Subject, string)): (string, string, string) {
    (NameOf(connections, t.0), Label(t.1), t.2)
  }

  function WriteTool(t: (Subject, string)): (string, string) {
    (Label(t.0), t.1)
  }

  function WrittenTables(connections: map<nat, string>, tables: set<(nat, Subject, string)>)
    : set<(string, string, string)>
  {
    set t | t in tables :: WriteTable(connections, t)
  }

  function WrittenTools(tools: set<(Subject, string)>): set<(string, string)> {
    set t | t in tools :: WriteTool(t)
  }

  function WrittenAccess(connections: map<nat, string>, access: set<(nat, Subject)>): set<(string, string)> {
    set a | a in access :: WriteAccess(connections, a)
  }

  function View(db: Db): History {
    History(WrittenAccess(db.connections, db.access), WrittenTables(db.connections, db.tables), WrittenTools(db.tools))
  }

  lemma LinkedStep(db: Db, req: Request)
    requires Linked(db)
    ensures Linked(Handle(db, req))
  {
    var db' := Handle(db, req);
    if req.CreateConnection? && RefusalOf(db, req).None? {
      assert forall c | c in db.connections :: db.connections[c] in db.connections.Values;
    }
  }

  // --- one request ---------------------------------------------------------------------------------

  /** Writing grants down keeps them apart, so changing them and writing them down commute. */
  lemma TableChangeReplays(db: Db, add: set<(nat, Subject, string)>, remove: set<(nat, Subject, string)>)
    requires Linked(db) && (forall t | t in add + remove :: t.0 in db.connections)
    ensures WrittenTables(db.connections, db.tables + add - remove)
            == View(db).tables + WrittenTables(db.connections, add) - WrittenTables(db.connections, remove)
  {
    forall a, b | a in db.tables + add + remove && b in db.tables + add + remove
                  && WriteTable(db.connections, a) == WriteTable(db.connections, b)
      ensures a == b
    {
      LabelIsUnique(a.1, b.1);
    }
  }

  lemma ToolChangeReplays(tools: set<(Subject, string)>, add: set<(Subject, string)>, remove: set<(Subject, string)>)
    ensures WrittenTools(tools + add - remove) == WrittenTools(tools) + WrittenTools(add) - WrittenTools(remove)
  {
    forall a, b | a in tools + add + remove && b in tools + add + remove && WriteTool(a) == WriteTool(b)
      ensures a == b
    {
      LabelIsUnique(a.0, b.0);
    }
  }

  lemma AccessChangeReplays(db: Db, add: set<(nat, Subject)>, remove: set<(nat, Subject)>)
    requires Linked(db) && (forall a | a in add + remove :: a.0 in db.connections)
    ensures WrittenAccess(db.connections, db.access + add - remove)
            == View(db).access + WrittenAccess(db.connections, add) - WrittenAccess(db.connections, remove)
  {
    forall a, b | a in db.access + add + remove && b in db.access + add + remove
                  && WriteAccess(db.connections, a) == WriteAccess(db.connections, b)
      ensures a == b
    {
      LabelIsUnique(a.1, b.1);
    }
  }

  lemma TablesReplay(db: Db, c: nat, s: Subject, on: set<string>, off: set<string>)
    requires Linked(db) && c in db.connections
    ensures WrittenTables(db.connections, db.tables + Triples(c, s, on) - Triples(c, s, off))
            == Replay(View(db), TablesChanged(db.connections[c], Label(s), on, off)).tables
  {
    TableChangeReplays(db, Triples(c, s, on), Triples(c, s, off));
    forall names: set<string>
      ensures WrittenTables(db.connections, Triples(c, s, names)) == Triples(db.connections[c], Label(s), names)
    {
      assert forall n | n in names :: (c, s, n) in Triples(c, s, names);
      assert forall n | n in names :: WriteTable(db.connections, (c, s, n)) == (db.connections[c], Label(s), n);
    }
  }

  lemma ToolsReplay(db: Db, s: Subject, on: set<string>, off: set<string>)
    ensures WrittenTools(db.tools + Pairs(s, on) - Pairs(s, off))
            == Replay(View(db), ToolsChanged(KindText(s.kind), s.name, on, off)).tools
  {
    ToolChangeReplays(db.tools, Pairs(s, on), Pairs(s, off));
    forall names: set<string> ensures WrittenTools(Pairs(s, names)) == Pairs(Label(s), names) {
      assert forall n | n in names :: (s, n) in Pairs(s, names);
      assert forall n | n in names :: WriteTool((s, n)) == (Label(s), n);
    }
  }

  function LabelsOf(subjects: set<Subject>): set<string> {
    set s | s in subjects :: Label(s)
  }

  lemma AccessReplays(db: Db, c: nat, on: set<Subject>, off: set<Subject>)
    requires Linked(db) && c in db.connections && on !! off
    ensures WrittenAccess(db.connections, db.access - Pairs(c, off) + Pairs(c, on))
            == Replay(View(db), AccessChanged(db.connections[c], LabelsOf(on), LabelsOf(off))).access
  {
    assert db.access - Pairs(c, off) + Pairs(c, on) == db.access + Pairs(c, on) - Pairs(c, off);
    AccessChangeReplays(db, Pairs(c, on), Pairs(c, off));
    forall subjects: set<Subject>
      ensures WrittenAccess(db.connections, Pairs(c, subjects)) == Pairs(db.connections[c], LabelsOf(subjects))
    {
      assert forall s | s in subjects :: (c, s) in Pairs(c, subjects) && Label(s) in LabelsOf(subjects);
      assert forall s | s in subjects :: WriteAccess(db.connections, (c, s)) == (db.connections[c], Label(s));
    }
  }

  lemma DeletionReplays(db: Db, req: Request)
    requires Linked(db) && req.DeleteConnection? && RefusalOf(db, req).None?
    ensures View(Carry(db, req)) == Replay(View(db), ConnectionDeleted(db.connections[req.connection]))
  {
    var c, db' := req.connection, Carry(db, req);
    var told := Replay(View(db), ConnectionDeleted(db.connections[c]));
    assert forall d | d in db.connections && d != c :: db'.connections[d] == db.connections[d] != db.connections[c];
    forall a | a in db.access ensures a in db'.access <==> WriteAccess(db.connections, a) in told.access {}
    forall t | t in db.tables ensures t in db'.tables <==> WriteTable(db.connections, t) in told.tables {}
    assert forall a | a in db'.access :: WriteAccess(db'.connections, a) == WriteAccess(db.connections, a);
    assert forall t | t in db'.tables :: WriteTable(db'.connections, t) == WriteTable(db.connections, t);
    assert View(db').access == told.access;
    assert View(db').tables == told.tables;
  }

  lemma CreationReplays(db: Db, req: Request)
    requires Linked(db) && req.CreateConnection? && RefusalOf(db, req).None?
    ensures View(Carry(db, req)) == View(db)
  {
    var db' := Carry(db, req);
    assert forall a | a in db.access :: WriteAccess(db'.connections, a) == WriteAccess(db.connections, a);
    assert forall t | t in db.tables :: WriteTable(db'.connections, t) == WriteTable(db.connections, t);
    assert View(db').access == View(db).access;
    assert View(db').tables == View(db).tables;
  }

  /** What a request adds to the log: nothing, or the one entry that tells what it did. */
  lemma StepReplays(db: Db, req: Request)
    requires Linked(db)
    ensures db.log <= Handle(db, req).log
    ensures ReplayAll(View(db), Handle(db, req).log[|db.log|..]) == View(Handle(db, req))
  {
    var db' := Handle(db, req);
    if RefusalOf(db, req).None? {
      var entries := db'.log[|db.log|..];
      match req
      case ChangeTables(c, kind, id, changes) =>
        var s := SubjectOf(kind, id).value;
        TablesReplay(db, c, s, NamesOn(changes), NamesOff(changes));
        assert db'.tables == db.tables + Triples(c, s, NamesOn(changes)) - Triples(c, s, NamesOff(changes));
        assert entries == [TablesChanged(db.connections[c], Label(s), NamesOn(changes), NamesOff(changes))];
        assert entries[1..] == [];
      case ChangeTools(kind, id, changes) =>
        var s := SubjectOf(kind, id).value;
        ToolsReplay(db, s, NamesOn(changes), NamesOff(changes));
        assert db'.tools == db.tools + Pairs(s, NamesOn(changes)) - Pairs(s, NamesOff(changes));
        assert entries == [ToolsChanged(kind, id, NamesOn(changes), NamesOff(changes))];
        assert entries[1..] == [];
      case SetAccess(c, pairs) =>
        var wanted, existing := SubjectsOf(pairs), UsersOf(db.access, c);
        AccessReplays(db, c, wanted - existing, existing - wanted);
        assert db'.access == db.access - Pairs(c, existing - wanted) + Pairs(c, wanted - existing);
        if wanted == existing {
          assert db'.access == db.access && entries == [];
        } else {
          assert entries == [AccessChanged(db.connections[c],
                                           LabelsOf(wanted - existing), LabelsOf(existing - wanted))];
          assert entries[1..] == [];
        }
      case CreateConnection(_, name, _) =>
        CreationReplays(db, req);
        assert entries == [ConnectionCreated(name)] && entries[1..] == [];
      case DeleteConnection(c) =>
        DeletionReplays(db, req);
        assert entries == [ConnectionDeleted(db.connections[c])] && entries[1..] == [];
    }
  }

  // --- every run -----------------------------------------------------------------------------------

  lemma {:induction false} ReplayConcat(h: History, a: seq<LogEntry>, b: seq<LogEntry>)
    ensures ReplayAll(h, a + b) == ReplayAll(ReplayAll(h, a), b)
    decreases |a|
  {
    if a == [] {
      assert a + b == b;
    } else {
      assert (a + b)[1..] == a[1..] + b;
      ReplayConcat(Replay(h, a[0]), a[1..], b);
    }
  }

  /** The log is a faithful history: after any serial run of requests, accepted and refused ones
      alike, replaying what they logged on top of the grants before gives exactly the grants after. */
  lemma {:induction false} LogIsFaithful(db: Db, reqs: seq<Request>)
    requires Linked(db)
    ensures Linked(HandleAll(db, reqs)) && db.log <= HandleAll(db, reqs).log
    ensures ReplayAll(View(db), HandleAll(db, reqs).log[|db.log|..]) == View(HandleAll(db, reqs))
    decreases |reqs|
  {
    if reqs != [] {
      var mid, end := Handle(db, reqs[0]), HandleAll(db, reqs);
      LinkedStep(db, reqs[0]);
      StepReplays(db, reqs[0]);
      LogIsFaithful(mid, reqs[1..]);
      assert end.log[|db.log|..] == mid.log[|db.log|..] + end.log[|mid.log|..];
      ReplayConcat(View(db), mid.log[|db.log|..], end.log[|mid.log|..]);
    }
  }

  /** The names and labels in a history stand for one grant each, so two states with the same
      connections and the same history have the same grants. */
  lemma HistoryTellsGrants(a: Db, b: Db)
    requires Linked(a) && Linked(b) && a.connections == b.connections && View(a) == View(b)
    ensures a.access == b.access && a.tables == b.tables && a.tools == b.tools
  {
    GrantsWithin(a, b);
    GrantsWithin(b, a);
  }

  lemma GrantsWithin(a: Db, b: Db)
    requires Linked(a) && Linked(b) && a.connections == b.connections && View(a) == View(b)
    ensures a.access <= b.access && a.tables <= b.tables && a.tools <= b.tools
  {
    forall x | x in a.access ensures x in b.access {
      assert WriteAccess(a.connections, x) in View(b).access;
      var y :| y in b.access && WriteAccess(b.connections, y) == WriteAccess(a.connections, x);
      LabelIsUnique(x.1, y.1);
    }
    forall x | x in a.tables ensures x in b.tables {
      assert WriteTable(a.connections, x) in View(b).tables;
      var y :| y in b.tables && WriteTable(b.connections, y) == WriteTable(a.connections, x);
      LabelIsUnique(x.1, y.1);
    }
    forall x | x in a.tools ensures x in b.tools {
      assert WriteTool(x) in View(b).tools;
      var y :| y in b.tools && WriteTool(y) == WriteTool(x);
      LabelIsUnique(x.0, y.0);
    }
  }
}
