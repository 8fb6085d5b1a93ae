/** The admin API over the grants and the admin log: who may use which connection, table and tool. */
module GrantApi {
  import opened Results
  import opened Subjects

  /** One cell of a row as the API takes it: a table or tool, and the value it should have. */
  datatype Change = Change(name: string, granted: bool)

  datatype Request =
    | ChangeTables(connection: nat, subjectType: string, subjectId: string, changes: seq<Change>)
    | ChangeTools(subjectType: string, subjectId: string, changes: seq<Change>)
    | SetAccess(connection: nat, subjects: set<(string, string)>)
    | CreateConnection(connection: nat, name: string, settingsAreValid: bool)
    | DeleteConnection(connection: nat)

  datatype LogEntry =
    | TablesChanged(connection: string, subject: string, granted: set<string>, revoked: set<string>)
    | ToolsChanged(kind: string, id: string, granted: set<string>, revoked: set<string>)
    | AccessChanged(connection: string, granted: set<string>, revoked: set<string>)
    | ConnectionCreated(connection: string)
    | ConnectionDeleted(connection: string)

  datatype Reply = Accepted | Refused(status: nat)

  /** `reported` are the connections that saved reports still use. */
  datatype Db = Db(
    connections: map<nat, string>,
    reported: set<nat>,
    access: set<(nat, Subject)>,
    tables: set<(nat, Subject, string)>,
    tools: set<(Subject, string)>,
    log: seq<LogEntry>)

  const TOOL_NAMES: set<string> := {
    "list_connections", "list_tables", "describe_table", "search_schema", "get_relationships",
    "run_query", "explain_query", "get_sample_rows"
  }

  // --- what a request asks for --------------------------------------------------------------

  /** The subject a request names, if it passes validation. */
  function SubjectOf(kind: string, id: string): Option<Subject> {
    if !(1 <= |id| <= 200) then None
    else if kind == "user" then Some(Subject(User, id))
    else if kind == "role" then Some(Subject(Role, id))
    else None
  }

  function NamesOn(changes: seq<Change>): set<string> {
    set c | c in changes && c.granted :: c.name
  }

  /** A name that is asked for both ways is granted. */
  function NamesOff(changes: seq<Change>): set<string> {
    (set c | c in changes && !c.granted :: c.name) - NamesOn(changes)
  }

  function SubjectsOf(pairs: set<(string, string)>): set<Subject> {
    set p | p in pairs && SubjectOf(p.0, p.1).Some? :: SubjectOf(p.0, p.1).value
  }

  predicate IsNameStart(c: char) {
    'a' <= c <= 'z' || '0' <= c <= '9'
  }

  /** What the name of a connection may look like. */
  predicate NameIsValid(name: string) {
    && 1 <= |name| <= 63
    && IsNameStart(name[0])
    && forall k | 0 < k < |name| :: IsNameStart(name[k]) || name[k] in "_-"
  }

  /** Why a request is refused, if it is: 422 for its shape, 404 and 409 for the state. */
  function RefusalOf(db: Db, req: Request): Option<nat> {
    match req
    case ChangeTables(c, kind, id, changes) =>
      if SubjectOf(kind, id).None? || !(1 <= |changes| <= 2000)
         || (exists x | x in changes :: !(1 <= |x.name| <= 300)) then Some(422)
      else if c !in db.connections then Some(404) else None
    case ChangeTools(kind, id, changes) =>
      if SubjectOf(kind, id).None? || !(1 <= |changes| <= 50)
         || (exists x | x in changes :: x.name !in TOOL_NAMES) then Some(422) else None
    case SetAccess(c, pairs) =>
      if exists p | p in pairs :: SubjectOf(p.0, p.1).None? then Some(422)
      else if c !in db.connections then Some(404) else None
    case CreateConnection(c, name, settingsAreValid) =>
      if !NameIsValid(name) || !settingsAreValid then Some(422)
      else if c in db.connections || name in db.connections.Values then Some(409) else None
    case DeleteConnection(c) =>
      if c !in db.connections then Some(404) else if c in db.reported then Some(409) else None
  }

  /** The state after an accepted request. */
  function Carry(db: Db, req: Request): Db
    requires RefusalOf(db, req).None?
  {
    match req
    case ChangeTables(c, kind, id, changes) =>
      var s := SubjectOf(kind, id).value;
      db.(tables := db.tables
                    + (set t | t in NamesOn(changes) :: (c, s, t))
                    - (set t | t in NamesOff(changes) :: (c, s, t)),
          log := db.log + [TablesChanged(db.connections[c], Label(s), NamesOn(changes), NamesOff(changes))])
    case ChangeTools(kind, id, changes) =>
      var s := SubjectOf(kind, id).value;
      db.(tools := db.tools + (set t | t in NamesOn(changes) :: (s, t)) - (set t | t in NamesOff(changes) :: (s, t)),
          log := db.log + [ToolsChanged(kind, id, NamesOn(changes), NamesOff(changes))])
    case SetAccess(c, pairs) =>
      var wanted := SubjectsOf(pairs);
      var existing := UsersOf(db.access, c);
      db.(access := db.access - (set s | s in existing - wanted :: (c, s)) + (set s | s in wanted - existing :: (c, s)),
          log := if wanted == existing then db.log
                 else db.log + [AccessChanged(db.connections[c],
                                              (set s | s in wanted - existing :: Label(s)),
                                              (set s | s in existing - wanted :: Label(s)))])
    case CreateConnection(c, name, _) =>
      db.(connections := db.connections[c := name], log := db.log + [ConnectionCreated(name)])
    case DeleteConnection(c) =>
      db.(connections := db.connections - {c},
          access := (set a | a in db.access && a.0 != c),
          tables := (set t | t in db.tables && t.0 != c),
          log := db.log + [ConnectionDeleted(db.connections[c])])
  }

  function UsersOf(access: set<(nat, Subject)>, c: nat): set<Subject> {
    set a | a in access && a.0 == c :: a.1
  }

  function Handle(db: Db, req: Request): Db {
    if RefusalOf(db, req).None? then Carry(db, req) else db
  }

  function HandleAll(db: Db, reqs: seq<Request>): Db
    decreases |reqs|
  {
    if reqs == [] then db else HandleAll(Handle(db, reqs[0]), reqs[1..])
  }

  // --- the handlers, each one transaction ---------------------------------------------------

  class AdminApi {
    var connections: map<nat, string>
    var reported: set<nat>
    var access: set<(nat, Subject)>
    var tables: set<(nat, Subject, string)>
    var tools: set<(Subject, string)>
    var log: seq<LogEntry>

    function Snapshot(): Db
      reads this
    {
      Db(connections, reported, access, tables, tools, log)
    }

    // What a body must look like before its handler is called.

    predicate SubjectIsValid(kind: string, id: string) {
      (kind == "user" || kind == "role") && 1 <= |id| <= 200
    }

    method TableChangesAreValid(changes: seq<Change>) returns (ok: bool)
      ensures ok <==> 1 <= |changes| <= 2000 && forall x | x in changes :: 1 <= |x.name| <= 300
    {
      if |changes| == 0 || |changes| > 2000 {
        return false;
      }
      for i := 0 to |changes|
        invariant forall k | 0 <= k < i :: 1 <= |changes[k].name| <= 300
      {
        if |changes[i].name| == 0 || |changes[i].name| > 300 {
          return false;
        }
      }
      return true;
    }

    method SubjectsAreValid(subjects: set<(string, string)>) returns (ok: bool)
      ensures ok <==> forall p | p in subjects :: SubjectIsValid(p.0, p.1)
    {
      var todo := subjects;
      while todo != {}
        invariant todo <= subjects && forall p | p in subjects - todo :: SubjectIsValid(p.0, p.1)
        decreases todo
      {
        var p :| p in todo;
        if !SubjectIsValid(p.0, p.1) {
          return false;
        }
        todo := todo - {p};
      }
      return true;
    }

    method ChangeTableAccess(req: Request) returns (reply: Reply)
      requires req.ChangeTables?
      modifies this
      ensures Snapshot() == Handle(old(Snapshot()), req)
      ensures reply == match RefusalOf(old(Snapshot()), req) case None => Accepted case Some(status) => Refused(status)
      // The statuses, and what becomes of every grant.
      ensures reply == if !((req.subjectType == "user" || req.subjectType == "role") && 1 <= |req.subjectId| <= 200
                            && 1 <= |req.changes| <= 2000 && forall x | x in req.changes :: 1 <= |x.name| <= 300)
                       then Refused(422)
                       else if req.connection !in old(connections) then Refused(404)
                       else Accepted
      ensures unchanged(`connections) && unchanged(`reported) && unchanged(`access) && unchanged(`tools)
      ensures reply != Accepted ==> unchanged(`tables) && unchanged(`log)
      ensures reply == Accepted ==> forall c, s, t :: (c, s, t) in tables <==>
                if c == req.connection && s.name == req.subjectId && (s.kind == User <==> req.subjectType == "user")
                then Change(t, true) in req.changes || (Change(t, false) !in req.changes && (c, s, t) in old(tables))
                else (c, s, t) in old(tables)
      ensures reply == Accepted ==>
                exists on: set<string>, off: set<string> ::
                  && log == old(log) + [TablesChanged(connections[req.connection],
                                                      req.subjectType + ":" + req.subjectId, on, off)]
                  && (forall t :: t in on <==> Change(t, true) in req.changes)
                  && (forall t :: t in off <==> Change(t, false) in req.changes && Change(t, true) !in req.changes)
    {
      var ok := TableChangesAreValid(req.changes);
      if !SubjectIsValid(req.subjectType, req.subjectId) || !ok {
        return Refused(422);
      }
      if req.connection !in connections {
        return Refused(404);
      }
      var c, s := req.connection, SubjectOf(req.subjectType, req.subjectId).value;
      var granted, revoked := NamesOn(req.changes), NamesOff(req.changes);
      var todo := granted;
      while todo != {}
        invariant todo <= granted
        invariant tables == old(tables) + (set t | t in granted - todo :: (c, s, t))
        invariant unchanged(`connections) && unchanged(`reported) && unchanged(`access) && unchanged(`tools)
                  && unchanged(`log)
        decreases todo
      {
        var t :| t in todo;
        tables := tables + {(c, s, t)};
        todo := todo - {t};
      }
      ghost var added := tables;
      todo := revoked;
      while todo != {}
        invariant todo <= revoked
        invariant tables == added - (set t | t in revoked - todo :: (c, s, t))
        invariant unchanged(`connections) && unchanged(`reported) && unchanged(`access) && unchanged(`tools)
                  && unchanged(`log)
        decreases todo
      {
        var t :| t in todo;
        tables := tables - {(c, s, t)};
        todo := todo - {t};
      }
      assert revoked - todo == revoked && added == old(tables) + (set t | t in granted :: (c, s, t));
      log := log + [TablesChanged(connections[c], req.subjectType + ":" + req.subjectId, granted, revoked)];
      ChangedTables(old(Snapshot()), req);
      LoggedNames(req.changes);
      return Accepted;
    }

    method ChangeToolAccess(req: Request) returns (reply: Reply)
      requires req.ChangeTools?
      modifies this
      ensures Snapshot() == Handle(old(Snapshot()), req)
      ensures reply == match RefusalOf(old(Snapshot()), req) case None => Accepted case Some(status) => Refused(status)
      ensures reply == if !((req.subjectType == "user" || req.subjectType == "role") && 1 <= |req.subjectId| <= 200
                            && 1 <= |req.changes| <= 50
                            && forall x | x in req.changes ::
                                 x.name in {"list_connections", "list_tables", "describe_table", "search_schema",
                                            "get_relationships", "run_query", "explain_query", "get_sample_rows"})
                       then Refused(422)
                       else Accepted
      ensures unchanged(`connections) && unchanged(`reported) && unchanged(`access) && unchanged(`tables)
      ensures reply != Accepted ==> unchanged(`tools) && unchanged(`log)
      ensures reply == Accepted ==> forall s, t :: (s, t) in tools <==>
                if s.name == req.subjectId && (s.kind == User <==> req.subjectType == "user")
                then Change(t, true) in req.changes || (Change(t, false) !in req.changes && (s, t) in old(tools))
                else (s, t) in old(tools)
      ensures reply == Accepted ==>
                exists on: set<string>, off: set<string> ::
                  && log == old(log) + [ToolsChanged(req.subjectType, req.subjectId, on, off)]
                  && (forall t :: t in on <==> Change(t, true) in req.changes)
                  && (forall t :: t in off <==> Change(t, false) in req.changes && Change(t, true) !in req.changes)
    {
      if !SubjectIsValid(req.subjectType, req.subjectId) || |req.changes| == 0 || |req.changes| > 50 {
        return Refused(422);
      }
      var unknown := (set x | x in req.changes :: x.name) - TOOL_NAMES;
      if unknown != {} {
        return Refused(422);
      }
      var s := SubjectOf(req.subjectType, req.subjectId).value;
      var granted, revoked := NamesOn(req.changes), NamesOff(req.changes);
      var todo := granted;
      while todo != {}
        invariant todo <= granted
        invariant tools == old(tools) + (set t | t in granted - todo :: (s, t))
        invariant unchanged(`connections) && unchanged(`reported) && unchanged(`access) && unchanged(`tables)
                  && unchanged(`log)
        decreases todo
      {
        var t :| t in todo;
        tools := tools + {(s, t)};
        todo := todo - {t};
      }
      ghost var added := tools;
      todo := revoked;
      while todo != {}
        invariant todo <= revoked
        invariant tools == added - (set t | t in revoked - todo :: (s, t))
        invariant unchanged(`connections) && unchanged(`reported) && unchanged(`access) && unchanged(`tables)
                  && unchanged(`log)
        decreases todo
      {
        var t :| t in todo;
        tools := tools - {(s, t)};
        todo := todo - {t};
      }
      assert revoked - todo == revoked && added == old(tools) + (set t | t in granted :: (s, t));
      log := log + [ToolsChanged(req.subjectType, req.subjectId, granted, revoked)];
      ChangedTools(old(Snapshot()), req);
      LoggedNames(req.changes);
      return Accepted;
    }

    /** Replaces the whole list of who may use a connection. */
    method ReplaceAccess(req: Request) returns (reply: Reply)
      requires req.SetAccess?
      modifies this
      ensures Snapshot() == Handle(old(Snapshot()), req)
      ensures reply == match RefusalOf(old(Snapshot()), req) case None => Accepted case Some(status) => Refused(status)
      ensures reply == if exists p :: p in req.subjects && !((p.0 == "user" || p.0 == "role") && 1 <= |p.1| <= 200)
                       then Refused(422)
                       else if req.connection !in old(connections) then Refused(404)
                       else Accepted
      ensures unchanged(`connections) && unchanged(`reported) && unchanged(`tables) && unchanged(`tools)
      ensures reply != Accepted ==> unchanged(`access) && unchanged(`log)
      ensures reply == Accepted ==> forall c, s :: (c, s) in access <==>
                if c == req.connection then (if s.kind == User then "user" else "role", s.name) in req.subjects
                else (c, s) in old(access)
      // A list that stays as it was is not logged.
      ensures reply == Accepted && access == old(access) ==> log == old(log)
      ensures reply == Accepted && access != old(access) ==>
                exists on: set<string>, off: set<string> ::
                  && log == old(log) + [AccessChanged(connections[req.connection], on, off)]
                  && (forall l :: l in on <==>
                        exists s :: l == Label(s) && (req.connection, s) in access - old(access))
                  && (forall l :: l in off <==>
                        exists s :: l == Label(s) && (req.connection, s) in old(access) - access)
    {
      var ok := SubjectsAreValid(req.subjects);
      if !ok {
        return Refused(422);
      }
      if req.connection !in connections {
        return Refused(404);
      }
      var c, wanted, existing := req.connection, SubjectsOf(req.subjects), UsersOf(access, req.connection);
      var todo := existing - wanted;
      while todo != {}
        invariant todo <= existing - wanted
        invariant access == old(access) - (set s | s in existing - wanted - todo :: (c, s))
        invariant unchanged(`connections) && unchanged(`reported) && unchanged(`tables) && unchanged(`tools)
                  && unchanged(`log)
        decreases todo
      {
        var s :| s in todo;
        access := access - {(c, s)};
        todo := todo - {s};
      }
      ghost var kept := access;
      todo := wanted - existing;
      while todo != {}
        invariant todo <= wanted - existing
        invariant access == kept + (set s | s in wanted - existing - todo :: (c, s))
        invariant unchanged(`connections) && unchanged(`reported) && unchanged(`tables) && unchanged(`tools)
                  && unchanged(`log)
        decreases todo
      {
        var s :| s in todo;
        access := access + {(c, s)};
        todo := todo - {s};
      }
      assert wanted - existing - todo == wanted - existing;
      assert kept == old(access) - (set s | s in existing - wanted :: (c, s));
      if wanted != existing {
        log := log + [AccessChanged(connections[c],
                                    (set s | s in wanted - existing :: Label(s)),
                                    (set s | s in existing - wanted :: Label(s)))];
      }
      ReplacedAccess(old(Snapshot()), req);
      return Accepted;
    }

    method AddConnection(req: Request) returns (reply: Reply)
      requires req.CreateConnection?
      modifies this
      ensures Snapshot() == Handle(old(Snapshot()), req)
      ensures reply == match RefusalOf(old(Snapshot()), req) case None => Accepted case Some(status) => Refused(status)
      ensures reply == if !(1 <= |req.name| <= 63 && req.settingsAreValid
                            && ('a' <= req.name[0] <= 'z' || '0' <= req.name[0] <= '9')
                            && forall k | 0 < k < |req.name| ::
                                 'a' <= req.name[k] <= 'z' || '0' <= req.name[k] <= '9' || req.name[k] in "_-")
                       then Refused(422)
                       else if req.connection in old(connections) || req.name in old(connections).Values
                       then Refused(409)
                       else Accepted
      ensures unchanged(`reported) && unchanged(`access) && unchanged(`tables) && unchanged(`tools)
      ensures connections ==
              if reply == Accepted then old(connections)[req.connection := req.name] else old(connections)
      ensures log == if reply == Accepted then old(log) + [ConnectionCreated(req.name)] else old(log)
    {
      if !NameIsValid(req.name) {
        return Refused(422);
      }
      if !req.settingsAreValid {
        return Refused(422);
      }
      // The database keeps identifiers and names unique.
      if req.connection in connections || req.name in connections.Values {
        return Refused(409);
      }
      connections := connections[req.connection := req.name];
      log := log + [ConnectionCreated(req.name)];
      return Accepted;
    }

    /** The grants on the connection go with it. */
    method RemoveConnection(req: Request) returns (reply: Reply)
      requires req.DeleteConnection?
      modifies this
      ensures Snapshot() == Handle(old(Snapshot()), req)
      ensures reply == match RefusalOf(old(Snapshot()), req) case None => Accepted case Some(status) => Refused(status)
      ensures reply == if req.connection !in old(connections) then Refused(404)
                       else if req.connection in old(reported) then Refused(409)
                       else Accepted
      ensures unchanged(`reported) && unchanged(`tools)
      ensures reply != Accepted ==>
                unchanged(`connections) && unchanged(`access) && unchanged(`tables) && unchanged(`log)
      ensures reply == Accepted ==>
                && req.connection !in connections
                && (forall c | c != req.connection :: (c in connections <==> c in old(connections))
                                                      && (c in connections ==> connections[c] == old(connections)[c]))
                && (forall c, s :: (c, s) in access <==> c != req.connection && (c, s) in old(access))
                && (forall c, s, t :: (c, s, t) in tables <==> c != req.connection && (c, s, t) in old(tables))
                && log == old(log) + [ConnectionDeleted(old(connections)[req.connection])]
    {
      if req.connection !in connections {
        return Refused(404);
      }
      if req.connection in reported {
        return Refused(409);
      }
      var c, name := req.connection, connections[req.connection];
      connections := connections - {c};
      access := set a | a in access && a.0 != c;
      tables := set t | t in tables && t.0 != c;
      log := log + [ConnectionDeleted(name)];
      return Accepted;
    }
  }

  /** A deleted connection is gone: whatever is asked of it afterwards is not found. */
  method DeletedIsGone(api: AdminApi, c: nat, changes: Request) returns (gone: Reply, later: Reply, again: Reply)
    requires c in api.connections && c !in api.reported && changes.ChangeTables? && changes.connection == c
    requires changes.subjectType == "user" && changes.subjectId == "u" && changes.changes == [Change("t", true)]
    modifies api
    ensures gone == Accepted && c !in api.connections && later == Refused(404) && again == Refused(404)
  {
    gone := api.RemoveConnection(DeleteConnection(c));
    later := api.ChangeTableAccess(changes);
    again := api.RemoveConnection(DeleteConnection(c));
  }

  // --- the same of the state after a request ---------------------------------------------------

  lemma ReplacedAccess(db: Db, req: Request)
    requires req.SetAccess? && RefusalOf(db, req).None?
    ensures var now := Carry(db, req);
            && (forall c, s :: (c, s) in now.access <==>
                  if c == req.connection then (if s.kind == User then "user" else "role", s.name) in req.subjects
                  else (c, s) in db.access)
            && (now.access == db.access ==> now.log == db.log)
            && (now.access != db.access ==>
                  exists on: set<string>, off: set<string> ::
                    && now.log == db.log + [AccessChanged(db.connections[req.connection], on, off)]
                    && (forall l :: l in on <==>
                          exists s :: l == Label(s) && (req.connection, s) in now.access - db.access)
                    && (forall l :: l in off <==>
                          exists s :: l == Label(s) && (req.connection, s) in db.access - now.access))
  {
    var c, now := req.connection, Carry(db, req);
    var wanted, existing := SubjectsOf(req.subjects), UsersOf(db.access, req.connection);
    forall s: Subject ensures s in wanted <==> (if s.kind == User then "user" else "role", s.name) in req.subjects {
      WantedIff(req.subjects, s);
    }
    forall s: Subject ensures s in existing <==> (c, s) in db.access { ExistingIff(db.access, c, s); }
    assert forall s :: (c, s) in now.access <==> s in wanted;
    if wanted == existing {
      assert now.access == db.access;
    } else {
      var on := set s | s in wanted - existing :: Label(s);
      var off := set s | s in existing - wanted :: Label(s);
      assert now.log == db.log + [AccessChanged(db.connections[c], on, off)];
      assert forall s :: (c, s) in now.access - db.access <==> s in wanted - existing;
      assert forall s :: (c, s) in db.access - now.access <==> s in existing - wanted;
    }
  }

  lemma WantedIff(pairs: set<(string, string)>, s: Subject)
    requires forall p | p in pairs :: SubjectOf(p.0, p.1).Some?
    ensures s in SubjectsOf(pairs) <==> (if s.kind == User then "user" else "role", s.name) in pairs
  {
    var pair := (if s.kind == User then "user" else "role", s.name);
    if pair in pairs {
      assert SubjectOf(pair.0, pair.1).Some?;
    }
  }

  lemma ExistingIff(access: set<(nat, Subject)>, c: nat, s: Subject)
    ensures s in UsersOf(access, c) <==> (c, s) in access
  {
    if s in UsersOf(access, c) {
      var a :| a in access && a.0 == c && a.1 == s;
      assert a == (c, s);
    }
  }

  lemma ChangedTools(db: Db, req: Request)
    requires req.ChangeTools? && RefusalOf(db, req).None?
    ensures forall s, t :: (s, t) in Carry(db, req).tools <==>
              if s.name == req.subjectId && (s.kind == User <==> req.subjectType == "user")
              then Change(t, true) in req.changes || (Change(t, false) !in req.changes && (s, t) in db.tools)
              else (s, t) in db.tools
  {
    LoggedNames(req.changes);
  }

  lemma ChangedTables(db: Db, req: Request)
    requires req.ChangeTables? && RefusalOf(db, req).None?
    ensures forall c, s, t :: (c, s, t) in Carry(db, req).tables <==>
              if c == req.connection && s.name == req.subjectId && (s.kind == User <==> req.subjectType == "user")
              then Change(t, true) in req.changes || (Change(t, false) !in req.changes && (c, s, t) in db.tables)
              else (c, s, t) in db.tables
  {
    LoggedNames(req.changes);
  }

  /** What is logged of names: granted those that are asked for, revoked those that are not. */
  lemma LoggedNames(changes: seq<Change>)
    ensures forall t :: t in NamesOn(changes) <==> Change(t, true) in changes
    ensures forall t :: t in NamesOff(changes) <==> Change(t, false) in changes && Change(t, true) !in changes
  {
    forall t: string
      ensures t in NamesOn(changes) <==> Change(t, true) in changes
      ensures t in NamesOff(changes) <==> Change(t, false) in changes && Change(t, true) !in changes
    {
      NamesAssigned(changes, t);
    }
  }

  // --- what a request does to each grant ----------------------------------------------------

  datatype Cell =
    | Use(connection: nat, subject: Subject)
    | Table(connection: nat, subject: Subject, table: string)
    | Tool(subject: Subject, tool: string)

  predicate Granted(db: Db, cell: Cell) {
    match cell
    case Use(c, s) => (c, s) in db.access
    case Table(c, s, t) => (c, s, t) in db.tables
    case Tool(s, t) => (s, t) in db.tools
  }

  /** The value an accepted request gives to a cell, if it touches it. */
  function Assigns(req: Request, cell: Cell): Option<bool> {
    match (req, cell)
    case (ChangeTables(c, kind, id, changes), Table(e, s, t)) =>
      if c == e && SubjectOf(kind, id) == Some(s) then AssignedName(changes, t) else None
    case (ChangeTools(kind, id, changes), Tool(s, t)) =>
      if SubjectOf(kind, id) == Some(s) then AssignedName(changes, t) else None
    case (SetAccess(c, pairs), Use(e, s)) => if c == e then Some(s in SubjectsOf(pairs)) else None
    case (DeleteConnection(c), Use(e, _)) => if c == e then Some(false) else None
    case (DeleteConnection(c), Table(e, _, _)) => if c == e then Some(false) else None
    case _ => None
  }

  function AssignedName(changes: seq<Change>, name: string): Option<bool> {
    if Change(name, true) in changes then Some(true)
    else if Change(name, false) in changes then Some(false)
    else None
  }

  function Or(value: Option<bool>, otherwise: bool): bool {
    if value.Some? then value.value else otherwise
  }

  lemma NamesAssigned(changes: seq<Change>, name: string)
    ensures name in NamesOn(changes) <==> AssignedName(changes, name) == Some(true)
    ensures name in NamesOff(changes) <==> AssignedName(changes, name) == Some(false)
  {
    if name in NamesOn(changes) {
      var c :| c in changes && c.granted && c.name == name;
      assert c == Change(name, true);
    }
    if name in NamesOff(changes) {
      var c :| c in changes && !c.granted && c.name == name;
      assert c == Change(name, false);
    }
    if Change(name, false) in changes && name !in NamesOn(changes) {
      assert name in NamesOff(changes);
    }
  }

  /** An accepted request sets the cells it names to constants and touches no other grant. */
  lemma HandleAssigns(db: Db, req: Request, cell: Cell)
    requires RefusalOf(db, req).None?
    ensures Granted(Handle(db, req), cell) == Or(Assigns(req, cell), Granted(db, cell))
  {
    match (req, cell)
    case (ChangeTables(c, kind, id, changes), Table(e, s, t)) => NamesAssigned(changes, t);
    case (ChangeTools(kind, id, changes), Tool(s, t)) => NamesAssigned(changes, t);
    case (SetAccess(c, pairs), Use(e, s)) =>
      assert c == e ==> ((c, s) in db.access <==> s in UsersOf(db.access, c)) by {
        if c == e && s in UsersOf(db.access, c) {
          var a :| a in db.access && a.0 == c && a.1 == s;
          assert a == (c, s);
        }
      }
    case _ =>
  }

  /** The last value that a list of requests gives to a cell. */
  function LastAssigned(reqs: seq<Request>, cell: Cell): Option<bool> {
    if reqs == [] then None
    else
      var later := LastAssigned(reqs[1..], cell);
      if later.Some? then later else Assigns(reqs[0], cell)
  }

  ghost predicate AllAccepted(db: Db, reqs: seq<Request>)
    decreases |reqs|
  {
    reqs == [] || (RefusalOf(db, reqs[0]).None? && AllAccepted(Handle(db, reqs[0]), reqs[1..]))
  }

  lemma {:induction false} HandleAllAssigns(db: Db, reqs: seq<Request>, cell: Cell)
    requires AllAccepted(db, reqs)
    ensures Granted(HandleAll(db, reqs), cell) == Or(LastAssigned(reqs, cell), Granted(db, cell))
    decreases |reqs|
  {
    if reqs != [] {
      HandleAssigns(db, reqs[0], cell);
      HandleAllAssigns(Handle(db, reqs[0]), reqs[1..], cell);
    }
  }
}
