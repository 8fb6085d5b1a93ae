/** Saving the table grid: the requests that are sent, and the proof that they leave the grants as
    the screen showed them, whatever fails on the way. */
module GridSave {
  import opened Results
  import opened Separators
  import opened Subjects
  import opened GrantApi
  import opened Staging

  /** The leading column: may this subject use the connection at all? */
  const USE := "__use__"

  // --- the requests ---------------------------------------------------------------------------

  function UsesIn(row: string, list: seq<Change>): seq<(string, bool)> {
    if list == [] then []
    else (if list[0].name == USE then [(row, list[0].granted)] else []) + UsesIn(row, list[1..])
  }

  function UseChanges(groups: Groups): seq<(string, bool)> {
    if groups == [] then [] else UsesIn(groups[0].0, groups[0].1) + UseChanges(groups[1..])
  }

  function NextUsable(usable: set<string>, uses: seq<(string, bool)>): set<string>
    decreases |uses|
  {
    if uses == [] then usable
    else NextUsable(if uses[0].1 then usable + {uses[0].0} else usable - {uses[0].0}, uses[1..])
  }

  function AccessRequest(connection: nat, rows: set<string>): Request {
    SetAccess(connection, set row | row in rows :: ParseRow(row))
  }

  function TablesOf(list: seq<Change>): seq<Change> {
    if list == [] then []
    else (if list[0].name != USE then [list[0]] else []) + TablesOf(list[1..])
  }

  function RowRequests(connection: nat, group: (string, seq<Change>)): seq<Request> {
    var tables := TablesOf(group.1);
    var (kind, id) := ParseRow(group.0);
    if tables == [] then [] else [ChangeTables(connection, kind, id, tables)]
  }

  function TableRequests(connection: nat, groups: Groups): seq<Request> {
    if groups == [] then [] else RowRequests(connection, groups[0]) + TableRequests(connection, groups[1..])
  }

  function AccessRequests(connection: nat, usable: set<string>, groups: Groups): seq<Request> {
    var uses := UseChanges(groups);
    if uses == [] then [] else [AccessRequest(connection, NextUsable(usable, uses))]
  }

  /** Access to the connection first, then one request for each row with table changes. `usable`
      are the rows that could use the connection when the grid was read. */
  function Requests(connection: nat, usable: set<string>, p: Pending): seq<Request> {
    AccessRequests(connection, usable, Grouped(p)) + TableRequests(connection, Grouped(p))
  }

  // --- sending them -----------------------------------------------------------------------------

  datatype Delivery = Delivered | RequestLost | ReplyLost

  method Send(api: AdminApi, req: Request, delivery: Delivery) returns (ok: bool)
    requires req.ChangeTables? || req.SetAccess?
    modifies api
    ensures api.Snapshot() == if delivery.RequestLost? then old(api.Snapshot()) else Handle(old(api.Snapshot()), req)
    ensures ok <==> delivery.Delivered? && RefusalOf(old(api.Snapshot()), req).None?
  {
    if delivery.RequestLost? {
      return false;
    }
    var reply;
    if req.ChangeTables? {
      reply := api.ChangeTableAccess(req);
    } else {
      reply := api.ReplaceAccess(req);
    }
    return delivery.Delivered? && reply.Accepted?;
  }

  lemma {:induction false} HandleAllAppend(db: Db, reqs: seq<Request>, last: Request)
    ensures HandleAll(db, reqs + [last]) == Handle(HandleAll(db, reqs), last)
    ensures AllAccepted(db, reqs + [last]) <==> AllAccepted(db, reqs) && RefusalOf(HandleAll(db, reqs), last).None?
    decreases |reqs|
  {
    if reqs != [] {
      assert (reqs + [last])[1..] == reqs[1..] + [last];
      HandleAllAppend(Handle(db, reqs[0]), reqs[1..], last);
    }
  }

  /** What a save may leave behind: the first `n` requests carried out, all of them if it succeeded. */
  ghost predicate Sent(before: Db, after: Db, reqs: seq<Request>, n: nat) {
    n <= |reqs| && AllAccepted(before, reqs[..n]) && after == HandleAll(before, reqs[..n])
  }

  /** No request is refused and no message lost; delivery `k` is the first's. */
  predicate GetsThrough(db: Db, reqs: seq<Request>, deliveries: nat -> Delivery, k: nat)
    decreases |reqs|
  {
    reqs == []
    || (RefusalOf(db, reqs[0]).None? && deliveries(k).Delivered?
        && GetsThrough(Handle(db, reqs[0]), reqs[1..], deliveries, k + 1))
  }

  /** What one request leaves. */
  function Sending(db: Db, req: Request, delivery: Delivery): Db {
    if delivery.RequestLost? then db else Handle(db, req)
  }

  /** What requests leave that are sent until one is refused or a message is lost. */
  function Leaves(db: Db, reqs: seq<Request>, deliveries: nat -> Delivery, k: nat): Db
    decreases |reqs|
  {
    if reqs == [] then db
    else if RefusalOf(db, reqs[0]).None? && deliveries(k).Delivered?
    then Leaves(Handle(db, reqs[0]), reqs[1..], deliveries, k + 1)
    else Sending(db, reqs[0], deliveries(k))
  }

  /** And how many of them are carried out. */
  function Carried(db: Db, reqs: seq<Request>, deliveries: nat -> Delivery, k: nat): nat
    decreases |reqs|
  {
    if reqs == [] || RefusalOf(db, reqs[0]).Some? || deliveries(k).RequestLost? then 0
    else if deliveries(k).ReplyLost? then 1
    else 1 + Carried(Handle(db, reqs[0]), reqs[1..], deliveries, k + 1)
  }

  lemma {:induction false} GetsThroughIff(db: Db, reqs: seq<Request>, deliveries: nat -> Delivery, k: nat)
    ensures GetsThrough(db, reqs, deliveries, k)
            <==> AllAccepted(db, reqs) && forall i | k <= i < k + |reqs| :: deliveries(i).Delivered?
    ensures GetsThrough(db, reqs, deliveries, k) ==> Carried(db, reqs, deliveries, k) == |reqs|
    decreases |reqs|
  {
    if reqs != [] {
      GetsThroughIff(Handle(db, reqs[0]), reqs[1..], deliveries, k + 1);
    }
  }

  /** A prefix is carried out. */
  lemma {:induction false} LeavesPrefix(db: Db, reqs: seq<Request>, deliveries: nat -> Delivery, k: nat)
    ensures Sent(db, Leaves(db, reqs, deliveries, k), reqs, Carried(db, reqs, deliveries, k))
    decreases |reqs|
  {
    var n := Carried(db, reqs, deliveries, k);
    if n > 0 {
      LeavesPrefix(Handle(db, reqs[0]), reqs[1..], deliveries, k + 1);
      assert n <= |reqs| && reqs[..n][1..] == reqs[1..][..n - 1];
    }
  }

  /** Where the sending stops, spelled out: every request before was answered, and there is a reason not to
      go on. The last one carried out may be the one whose reply was lost. */
  lemma {:induction false} StopsAtFirstFailure(db: Db, reqs: seq<Request>, deliveries: nat -> Delivery, k: nat)
    ensures var n := Carried(db, reqs, deliveries, k);
            && n <= |reqs| && (forall i | k <= i < k + n - 1 :: deliveries(i) == Delivered)
            && (n > 0 ==> deliveries(k + n - 1) != RequestLost)
            && ((n > 0 && deliveries(k + n - 1) == ReplyLost)
                || n == |reqs|
                || deliveries(k + n) == RequestLost
                || RefusalOf(HandleAll(db, reqs[..n]), reqs[n]).Some?)
    decreases |reqs|
  {
    var n := Carried(db, reqs, deliveries, k);
    if n > 0 {
      StopsAtFirstFailure(Handle(db, reqs[0]), reqs[1..], deliveries, k + 1);
      LeavesPrefix(db, reqs, deliveries, k);
      assert reqs[..n][1..] == reqs[1..][..n - 1];
    } else {
      assert reqs != [] ==> reqs[..0] == [];
    }
  }

  lemma {:induction false} LeavesConcat(db: Db, a: seq<Request>, b: seq<Request>, deliveries: nat -> Delivery, k: nat)
    ensures Leaves(db, a + b, deliveries, k) ==
            if GetsThrough(db, a, deliveries, k) then Leaves(Leaves(db, a, deliveries, k), b, deliveries, k + |a|)
            else Leaves(db, a, deliveries, k)
    ensures GetsThrough(db, a + b, deliveries, k) <==>
            GetsThrough(db, a, deliveries, k) && GetsThrough(Leaves(db, a, deliveries, k), b, deliveries, k + |a|)
    decreases |a|
  {
    if a == [] {
      assert a + b == b;
    } else {
      assert (a + b)[0] == a[0] && (a + b)[1..] == a[1..] + b;
      LeavesConcat(Handle(db, a[0]), a[1..], b, deliveries, k + 1);
    }
  }

  /** The first PUT, if who may use the connection changes at all. */
  method WriteAccess(api: AdminApi, connection: nat, usable: set<string>, byRow: Groups, deliveries: nat -> Delivery)
    returns (ok: bool)
    modifies api
    ensures ok <==> GetsThrough(old(api.Snapshot()), AccessRequests(connection, usable, byRow), deliveries, 0)
    ensures api.Snapshot() == Leaves(old(api.Snapshot()), AccessRequests(connection, usable, byRow), deliveries, 0)
  {
    var useChanges := UseChanges(byRow);
    if |useChanges| == 0 {
      return true;
    }
    var next := usable;
    for i := 0 to |useChanges|
      invariant NextUsable(next, useChanges[i..]) == NextUsable(usable, useChanges)
    {
      var (row, granted) := useChanges[i];
      next := if granted then next + {row} else next - {row};
      assert useChanges[i..][1..] == useChanges[i + 1..];
    }
    var req := AccessRequest(connection, next);
    assert [req][1..] == [];
    ok := Send(api, req, deliveries(0));
  }

  /** The requests of the rows from `i` on are those of row `i` and of the rows after it. */
  lemma RowThenRest(db: Db, c: nat, byRow: Groups, i: nat, deliveries: nat -> Delivery, k: nat)
    requires i < |byRow|
    ensures var row, rest := RowRequests(c, byRow[i]), TableRequests(c, byRow[i + 1..]);
            var mid, next := Leaves(db, row, deliveries, k), k + |row|;
            var all := TableRequests(c, byRow[i..]);
            if GetsThrough(db, row, deliveries, k)
            then Leaves(db, all, deliveries, k) == Leaves(mid, rest, deliveries, next)
                 && (GetsThrough(db, all, deliveries, k) <==> GetsThrough(mid, rest, deliveries, next))
            else Leaves(db, all, deliveries, k) == mid && !GetsThrough(db, all, deliveries, k)
  {
    assert byRow[i..][0] == byRow[i] && byRow[i..][1..] == byRow[i + 1..];
    LeavesConcat(db, RowRequests(c, byRow[i]), TableRequests(c, byRow[i + 1..]), deliveries, k);
  }

  /** The PUT for one row, if any table of it changes. */
  method WriteRow(api: AdminApi, connection: nat, group: (string, seq<Change>), deliveries: nat -> Delivery, k: nat)
    returns (ok: bool, next: nat)
    modifies api
    ensures ok <==> GetsThrough(old(api.Snapshot()), RowRequests(connection, group), deliveries, k)
    ensures api.Snapshot() == Leaves(old(api.Snapshot()), RowRequests(connection, group), deliveries, k)
    ensures next == k + |RowRequests(connection, group)|
  {
    var (row, list) := group;
    var tables := TablesOf(list);
    if |tables| == 0 {
      return true, k;
    }
    var (kind, id) := ParseRow(row);
    var req := ChangeTables(connection, kind, id, tables);
    assert [req][1..] == [];
    ok := Send(api, req, deliveries(k));
    next := k + 1;
  }

  /** One PUT for each row with table changes, until one fails; the first has delivery `start`. */
  method WriteTables(api: AdminApi, connection: nat, byRow: Groups, deliveries: nat -> Delivery, start: nat)
    returns (ok: bool)
    modifies api
    ensures ok <==> GetsThrough(old(api.Snapshot()), TableRequests(connection, byRow), deliveries, start)
    ensures api.Snapshot() == Leaves(old(api.Snapshot()), TableRequests(connection, byRow), deliveries, start)
  {
    ghost var end := Leaves(api.Snapshot(), TableRequests(connection, byRow), deliveries, start);
    ghost var through := GetsThrough(api.Snapshot(), TableRequests(connection, byRow), deliveries, start);
    var next := start;
    assert byRow[0..] == byRow;
    for i := 0 to |byRow|
      invariant Leaves(api.Snapshot(), TableRequests(connection, byRow[i..]), deliveries, next) == end
      invariant GetsThrough(api.Snapshot(), TableRequests(connection, byRow[i..]), deliveries, next) == through
    {
      RowThenRest(api.Snapshot(), connection, byRow, i, deliveries, next);
      ok, next := WriteRow(api, connection, byRow[i], deliveries, next);
      if !ok {
        return;
      }
    }
    return true;
  }

  /** `write`: the PUTs of one save, stopping at the first that fails. */
  method Write(api: AdminApi, connection: nat, usable: set<string>, p: Pending, deliveries: nat -> Delivery)
    returns (ok: bool, ghost n: nat)
    modifies api
    ensures ok <==> GetsThrough(old(api.Snapshot()), Requests(connection, usable, p), deliveries, 0)
    ensures n == Carried(old(api.Snapshot()), Requests(connection, usable, p), deliveries, 0)
    ensures Sent(old(api.Snapshot()), api.Snapshot(), Requests(connection, usable, p), n)
    ensures ok ==> n == |Requests(connection, usable, p)|
  {
    var byRow := GroupByRow(p);
    ghost var before := api.Snapshot();
    ghost var first, rest := AccessRequests(connection, usable, byRow), TableRequests(connection, byRow);
    n := Carried(before, first + rest, deliveries, 0);
    LeavesConcat(before, first, rest, deliveries, 0);
    LeavesPrefix(before, first + rest, deliveries, 0);
    GetsThroughIff(before, first + rest, deliveries, 0);
    ok := WriteAccess(api, connection, usable, byRow, deliveries);
    if !ok {
      return;
    }
    ok := WriteTables(api, connection, byRow, deliveries, if UseChanges(byRow) == [] then 0 else 1);
  }

  lemma {:induction false} AcceptedSplits(db: Db, a: seq<Request>, b: seq<Request>)
    ensures AllAccepted(db, a + b) <==> AllAccepted(db, a) && AllAccepted(HandleAll(db, a), b)
    ensures HandleAll(db, a + b) == HandleAll(HandleAll(db, a), b)
    decreases |a|
  {
    if a == [] {
      assert a + b == b;
    } else {
      assert (a + b)[1..] == a[1..] + b;
      AcceptedSplits(Handle(db, a[0]), a[1..], b);
    }
  }

  // --- what the requests assign -----------------------------------------------------------------

  /** The key of a cell that the grid can show: the row is some subject's, without the separator. */
  ghost predicate IsCellOf(key: string, s: Subject, col: string) {
    Without(SEP, s.name) && key == CellKey(Label(s), col)
  }

  ghost predicate OnGrid(p: Pending) {
    && Distinct(p)
    && AllGridKeys(p)
  }

  ghost predicate IsGridKey(key: string) {
    exists s: Subject, col: string :: IsCellOf(key, s, col)
  }

  ghost predicate AllGridKeys(p: Pending) {
    forall i | 0 <= i < |p| :: IsGridKey(p[i].0)
  }

  ghost predicate IsRow(row: string) {
    exists s: Subject :: Without(SEP, s.name) && row == Label(s)
  }

  lemma SplitCellOf(key: string, s: Subject, col: string)
    requires IsCellOf(key, s, col)
    ensures SplitCell(key) == (Label(s), col)
  {
    SplitCellKey(Label(s), col);
  }

  lemma RowOfKey(p: Pending, i: nat, s: Subject)
    requires AllGridKeys(p) && i < |p| && SplitCell(p[i].0).0 == Label(s)
    ensures Without(SEP, s.name) && p[i].0 == CellKey(Label(s), SplitCell(p[i].0).1)
  {
    assert IsGridKey(p[i].0);
    var r: Subject, c: string :| IsCellOf(p[i].0, r, c);
    SplitCellOf(p[i].0, r, c);
    LabelIsUnique(r, s);
  }

  lemma RowHasChange(p: Pending, s: Subject, c: Change)
    requires AllGridKeys(p)
    ensures c in RowChanges(p, Label(s)) <==> (Without(SEP, s.name) && (CellKey(Label(s), c.name), c.granted) in p)
  {
    var row, key := Label(s), CellKey(Label(s), c.name);
    RowChangesIff(p, row, c);
    if c in RowChanges(p, row) {
      var i :| 0 <= i < |p| && SplitCell(p[i].0) == (row, c.name) && p[i].1 == c.granted;
      RowOfKey(p, i, s);
      assert p[i] == (key, c.granted);
    }
    if Without(SEP, s.name) && (key, c.granted) in p {
      SplitCellKey(row, c.name);
      var i :| 0 <= i < |p| && p[i] == (key, c.granted);
      assert SplitCell(p[i].0) == (row, c.name);
    }
  }

  /** The changes of a subject's row are the pending values of its cells. */
  lemma RowAssigns(p: Pending, s: Subject, col: string)
    requires OnGrid(p)
    ensures AssignedName(RowChanges(p, Label(s)), col) ==
              if Without(SEP, s.name) then Find(p, CellKey(Label(s), col)) else None
    ensures !(Change(col, true) in RowChanges(p, Label(s)) && Change(col, false) in RowChanges(p, Label(s)))
  {
    var key := CellKey(Label(s), col);
    RowHasChange(p, s, Change(col, true));
    RowHasChange(p, s, Change(col, false));
    FindIff(p, key);
    if (key, true) in p { assert Find(p, key) == Some(true); }
    if (key, false) in p { assert Find(p, key) == Some(false); }
  }

  lemma RowOfGridKey(key: string)
    requires IsGridKey(key)
    ensures IsRow(SplitCell(key).0)
  {
    var s: Subject, col: string :| IsCellOf(key, s, col);
    SplitCellOf(key, s, col);
  }

  lemma {:induction false} GroupRowsAreRows(p: Pending)
    requires AllGridKeys(p)
    ensures forall g | g in Grouped(p) :: IsRow(g.0)
    decreases |p|
  {
    if p != [] {
      var n := |p| - 1;
      var before := Grouped(p[..n]);
      var (row, col) := SplitCell(p[n].0);
      assert AllGridKeys(p[..n]) by { assert forall i | 0 <= i < n :: p[..n][i] == p[i]; }
      GroupRowsAreRows(p[..n]);
      GroupedIs(p[..n], row);
      PushGroups(before, row, Change(col, p[n].1), row);
      RowOfGridKey(p[n].0);
    }
  }

  lemma {:induction false} TablesAssign(list: seq<Change>, t: string)
    ensures AssignedName(TablesOf(list), t) == if t == USE then None else AssignedName(list, t)
  {
    if list != [] {
      TablesAssign(list[1..], t);
      assert list == [list[0]] + list[1..];
      assert TablesOf(list) == (if list[0].name != USE then [list[0]] else []) + TablesOf(list[1..]);
    }
  }

  /** The part of a request that validation looks at without the state. */
  predicate WellShaped(req: Request) {
    match req
    case ChangeTables(_, kind, id, changes) =>
      SubjectOf(kind, id).Some? && 1 <= |changes| <= 2000 && forall x | x in changes :: 1 <= |x.name| <= 300
    case SetAccess(_, pairs) => forall p | p in pairs :: SubjectOf(p.0, p.1).Some?
    case _ => true
  }

  predicate IsPut(req: Request) {
    req.ChangeTables? || req.SetAccess?
  }

  function ConnectionOf(req: Request): nat
    requires IsPut(req)
  {
    req.connection
  }

  lemma PutKeepsConnections(db: Db, req: Request)
    requires IsPut(req)
    ensures RefusalOf(db, req).None? <==> WellShaped(req) && ConnectionOf(req) in db.connections
    ensures Handle(db, req).connections == db.connections
  {
  }

  /** Whether the requests of a save are accepted depends on their shape and on the connection alone. */
  lemma {:induction false} AcceptedIff(db: Db, reqs: seq<Request>)
    requires forall r | r in reqs :: IsPut(r)
    ensures AllAccepted(db, reqs) <==> forall r | r in reqs :: WellShaped(r) && ConnectionOf(r) in db.connections
    ensures HandleAll(db, reqs).connections == db.connections
    decreases |reqs|
  {
    if reqs != [] {
      PutKeepsConnections(db, reqs[0]);
      AcceptedIff(Handle(db, reqs[0]), reqs[1..]);
      assert forall r :: r in reqs <==> r == reqs[0] || r in reqs[1..];
    }
  }

  lemma {:induction false} LastAssignedConcat(a: seq<Request>, b: seq<Request>, cell: Cell)
    ensures LastAssigned(a + b, cell) ==
            if LastAssigned(b, cell).Some? then LastAssigned(b, cell) else LastAssigned(a, cell)
  {
    if a == [] {
      assert a + b == b;
    } else {
      assert (a + b)[1..] == a[1..] + b;
      LastAssignedConcat(a[1..], b, cell);
    }
  }

  /** One row's request assigns the table cells of that row's subject. */
  lemma RowRequestAssigns(connection: nat, group: (string, seq<Change>), s: Subject, t: string)
    requires IsRow(group.0)
    requires forall r | r in RowRequests(connection, group) :: WellShaped(r)
    ensures LastAssigned(RowRequests(connection, group), Table(connection, s, t))
            == if group.0 == Label(s) && t != USE then AssignedName(group.1, t) else None
  {
    var r: Subject :| Without(SEP, r.name) && group.0 == Label(r);
    ParseLabel(r);
    TablesAssign(group.1, t);
    var reqs := RowRequests(connection, group);
    if reqs != [] {
      assert reqs[1..] == [] && reqs[0] in reqs;
      assert SubjectOf(KindText(r.kind), r.name) == Some(r);
      if group.0 == Label(s) { LabelIsUnique(r, s); }
    }
  }

  lemma {:induction false} TableRequestsAssign(connection: nat, groups: Groups, s: Subject, t: string)
    requires WellGrouped(groups) && forall g | g in groups :: IsRow(g.0)
    requires forall r | r in TableRequests(connection, groups) :: WellShaped(r)
    ensures LastAssigned(TableRequests(connection, groups), Table(connection, s, t))
            == if t != USE then AssignedName(GroupOf(groups, Label(s)), t) else None
  {
    if groups != [] {
      var rest := groups[1..];
      assert forall i | 0 <= i < |rest| :: rest[i] == groups[i + 1];
      RowRequestAssigns(connection, groups[0], s, t);
      TableRequestsAssign(connection, rest, s, t);
      LastAssignedConcat(RowRequests(connection, groups[0]), TableRequests(connection, rest), Table(connection, s, t));
      HeadRowIsUnique(groups);
    }
  }

  /** Table requests touch nothing but tables of their own connection. */
  lemma {:induction false} TableRequestsAssignOnly(connection: nat, groups: Groups, cell: Cell)
    requires !(cell.Table? && cell.connection == connection)
    ensures LastAssigned(TableRequests(connection, groups), cell) == None
  {
    if groups != [] {
      TableRequestsAssignOnly(connection, groups[1..], cell);
      var reqs := RowRequests(connection, groups[0]);
      assert reqs != [] ==> reqs[1..] == [];
      LastAssignedConcat(reqs, TableRequests(connection, groups[1..]), cell);
    }
  }

  lemma HeadRowIsUnique(groups: Groups)
    requires WellGrouped(groups) && groups != []
    ensures GroupOf(groups[1..], groups[0].0) == []
  {
    var rest := groups[1..];
    assert forall i | 0 <= i < |rest| :: rest[i] == groups[i + 1];
    if GroupOf(rest, groups[0].0) != [] {
      var i := GroupExists(rest, groups[0].0);
    }
  }

  // --- the use column -----------------------------------------------------------------------------

  function LastUse(uses: seq<(string, bool)>, row: string): Option<bool> {
    if uses == [] then None
    else
      var later := LastUse(uses[1..], row);
      if later.Some? then later else if uses[0].0 == row then Some(uses[0].1) else None
  }

  lemma {:induction false} NextUsableIff(usable: set<string>, uses: seq<(string, bool)>, row: string)
    ensures row in NextUsable(usable, uses) <==> Or(LastUse(uses, row), row in usable)
    decreases |uses|
  {
    if uses != [] {
      NextUsableIff(if uses[0].1 then usable + {uses[0].0} else usable - {uses[0].0}, uses[1..], row);
    }
  }

  lemma {:induction false} LastUseConcat(a: seq<(string, bool)>, b: seq<(string, bool)>, row: string)
    ensures LastUse(a + b, row) == if LastUse(b, row).Some? then LastUse(b, row) else LastUse(a, row)
  {
    if a == [] {
      assert a + b == b;
    } else {
      assert (a + b)[1..] == a[1..] + b;
      LastUseConcat(a[1..], b, row);
    }
  }

  lemma {:induction false} UsesInAssign(r: string, list: seq<Change>, row: string)
    requires !(Change(USE, true) in list && Change(USE, false) in list)
    ensures LastUse(UsesIn(r, list), row) == if r == row then AssignedName(list, USE) else None
    ensures UsesIn(r, list) == [] <==> AssignedName(list, USE).None?
  {
    if list != [] {
      assert list == [list[0]] + list[1..];
      UsesInAssign(r, list[1..], row);
      LastUseConcat(if list[0].name == USE then [(r, list[0].granted)] else [], UsesIn(r, list[1..]), row);
      assert list[0].name == USE ==> list[0] == Change(USE, list[0].granted);
    }
  }

  ghost predicate OneUseEach(groups: Groups) {
    forall g | g in groups :: !(Change(USE, true) in g.1 && Change(USE, false) in g.1)
  }

  lemma {:induction false} UseChangesAssign(groups: Groups, row: string)
    requires WellGrouped(groups) && OneUseEach(groups)
    ensures LastUse(UseChanges(groups), row) == AssignedName(GroupOf(groups, row), USE)
  {
    if groups != [] {
      var rest := groups[1..];
      assert forall i | 0 <= i < |rest| :: rest[i] == groups[i + 1];
      assert groups[0] in groups;
      UsesInAssign(groups[0].0, groups[0].1, row);
      UseChangesAssign(rest, row);
      LastUseConcat(UsesIn(groups[0].0, groups[0].1), UseChanges(rest), row);
      HeadRowIsUnique(groups);
    }
  }

  lemma GroupsHaveOneUse(p: Pending)
    requires OnGrid(p)
    ensures OneUseEach(Grouped(p))
  {
    GroupRowsAreRows(p);
    var groups := Grouped(p);
    forall g | g in groups ensures !(Change(USE, true) in g.1 && Change(USE, false) in g.1) {
      var s: Subject :| Without(SEP, s.name) && g.0 == Label(s);
      var i :| 0 <= i < |groups| && groups[i] == g;
      GroupedIs(p, g.0);
      GroupAt(groups, i);
      RowAssigns(p, s, USE);
    }
  }

  /** Does the save replace the list of who may use the connection? */
  predicate ReplacesAccess(p: Pending) {
    UseChanges(Grouped(p)) != []
  }

  lemma AccessAssigns(connection: nat, usable: set<string>, p: Pending, s: Subject)
    requires OnGrid(p) && RowsOfSubjects(usable)
    requires forall r | r in AccessRequests(connection, usable, Grouped(p)) :: WellShaped(r)
    ensures LastAssigned(AccessRequests(connection, usable, Grouped(p)), Use(connection, s)) ==
            if !ReplacesAccess(p) then None
            else if Without(SEP, s.name) then Some(Effective(p, CellKey(Label(s), USE), Label(s) in usable))
            else Some(Label(s) in usable)
  {
    var groups := Grouped(p);
    var uses := UseChanges(groups);
    if uses != [] {
      var next := NextUsable(usable, uses);
      var req := AccessRequest(connection, next);
      var reqs := AccessRequests(connection, usable, groups);
      assert reqs == [req] && reqs[1..] == [] && req in reqs;
      GroupedIs(p, Label(s));
      GroupsHaveOneUse(p);
      UseChangesAssign(groups, Label(s));
      RowAssigns(p, s, USE);
      NextUsableIff(usable, uses, Label(s));
      forall row | row in next ensures exists r: Subject :: row == Label(r) { NextRowsAreRows(usable, p, row); }
      ReplacementIff(connection, next, s);
    }
  }

  /** Every row of the replacement list is some subject's. */
  lemma NextRowsAreRows(usable: set<string>, p: Pending, row: string)
    requires OnGrid(p) && RowsOfSubjects(usable) && row in NextUsable(usable, UseChanges(Grouped(p)))
    ensures exists s: Subject :: row == Label(s)
  {
    NextUsableIff(usable, UseChanges(Grouped(p)), row);
    if row !in usable {
      GroupedIs(p, row);
      GroupsHaveOneUse(p);
      UseChangesAssign(Grouped(p), row);
      var i := GroupExists(Grouped(p), row);
      GroupRowsAreRows(p);
      assert IsRow(Grouped(p)[i].0);
    }
  }

  /** A subject is in the replacement list exactly when its row is in the set it was made from. */
  lemma ReplacementIff(connection: nat, next: set<string>, s: Subject)
    requires (forall row | row in next :: exists r: Subject :: row == Label(r))
             && WellShaped(AccessRequest(connection, next))
    ensures s in SubjectsOf(AccessRequest(connection, next).subjects) <==> Label(s) in next
  {
    var pairs := AccessRequest(connection, next).subjects;
    ParseLabel(s);
    if Label(s) in next {
      assert (KindText(s.kind), s.name) in pairs;
    }
    if s in SubjectsOf(pairs) {
      var pair :| pair in pairs && SubjectOf(pair.0, pair.1) == Some(s);
      var row :| row in next && ParseRow(row) == pair;
      var r: Subject :| row == Label(r);
      ParseLabel(r);
    }
  }

  // --- the theorems ---------------------------------------------------------------------------------

  /** What the column of a subject's row stands for. */
  function CellAt(c: nat, s: Subject, col: string): Cell {
    if col == USE then Use(c, s) else Table(c, s, col)
  }

  /** Does the grid of connection `c` have a cell of its own for this grant? A table that is named like
      the use column has none: its place on the screen shows the use cell. */
  predicate HasCell(c: nat, cell: Cell) {
    match cell
    case Use(e, s) => e == c && SEP !in s.name
    case Table(e, s, t) => e == c && SEP !in s.name && t != USE
    case Tool(_, _) => false
  }

  function ColumnOf(cell: Cell): string {
    match cell
    case Use(_, _) => USE
    case Table(_, _, t) => t
    case Tool(_, t) => t
  }

  /** What a grant is shown as, when `saved` is what is saved for it; a grant without a cell stays. */
  function Shown(c: nat, p: Pending, cell: Cell, saved: bool): bool {
    if HasCell(c, cell) then Effective(p, CellKey(Label(cell.subject), ColumnOf(cell)), saved) else saved
  }

  ghost predicate RowsOfSubjects(usable: set<string>) {
    forall row | row in usable :: exists s: Subject :: row == Label(s)
  }

  /** The grid was read from this state and nobody has changed who may use the connection since. */
  ghost predicate UsableIsCurrent(db: Db, c: nat, usable: set<string>) {
    forall s: Subject :: (c, s) in db.access <==> Label(s) in usable
  }

  lemma RequestsArePuts(c: nat, usable: set<string>, p: Pending)
    ensures forall r | r in Requests(c, usable, p) :: IsPut(r) && ConnectionOf(r) == c
  {
    TableRequestsArePuts(c, Grouped(p));
  }

  lemma {:induction false} TableRequestsArePuts(c: nat, groups: Groups)
    ensures forall r | r in TableRequests(c, groups) :: r.ChangeTables? && r.connection == c
  {
    if groups != [] {
      TableRequestsArePuts(c, groups[1..]);
    }
  }

  /** What a save that succeeds does to every grant, however old the grid is. */
  lemma SaveAssigns(db: Db, c: nat, usable: set<string>, p: Pending, cell: Cell)
    requires OnGrid(p) && RowsOfSubjects(usable) && AllAccepted(db, Requests(c, usable, p))
    ensures Granted(HandleAll(db, Requests(c, usable, p)), cell) ==
            match cell
            case Use(e, s) =>
              if e == c && ReplacesAccess(p) then Shown(c, p, cell, Label(s) in usable) else Granted(db, cell)
            case _ => Shown(c, p, cell, Granted(db, cell))
  {
    var reqs := Requests(c, usable, p);
    var groups := Grouped(p);
    RequestsArePuts(c, usable, p);
    AcceptedIff(db, reqs);
    assert forall r | r in AccessRequests(c, usable, groups) :: r in reqs;
    assert forall r | r in TableRequests(c, groups) :: r in reqs;
    HandleAllAssigns(db, reqs, cell);
    LastAssignedConcat(AccessRequests(c, usable, groups), TableRequests(c, groups), cell);
    GroupRowsAreRows(p);
    match cell
    case Table(e, s, t) =>
      if e == c {
        GroupedIs(p, Label(s));
        TableRequestsAssign(c, groups, s, t);
        RowAssigns(p, s, t);
      } else {
        TableRequestsAssignOnly(c, groups, cell);
      }
    case Use(e, s) =>
      TableRequestsAssignOnly(c, groups, cell);
      if e == c {
        AccessAssigns(c, usable, p, s);
      }
    case Tool(_, _) => TableRequestsAssignOnly(c, groups, cell);
  }

  /** Saving does what the screen showed: every cell of the connection ends up with its effective
      value, and no other grant changes. `db` is the state that the save finds, so a cell that nobody
      touched here keeps what others have made of it since the grid was read. */
  lemma SaveDoesWhatTheScreenShowed(db: Db, c: nat, usable: set<string>, p: Pending, cell: Cell)
    requires OnGrid(p) && RowsOfSubjects(usable) && UsableIsCurrent(db, c, usable)
    requires AllAccepted(db, Requests(c, usable, p))
    ensures Granted(HandleAll(db, Requests(c, usable, p)), cell) == Shown(c, p, cell, Granted(db, cell))
  {
    SaveAssigns(db, c, usable, p, cell);
    if cell.Use? && cell.connection == c && !ReplacesAccess(p) {
      GroupedIs(p, Label(cell.subject));
      GroupsHaveOneUse(p);
      UseChangesAssign(Grouped(p), Label(cell.subject));
      RowAssigns(p, cell.subject, USE);
    }
  }

  /** A table that is named like the use column is never touched, whatever is staged. So it ends up as
      the column that stands for it shows if and only if it did already. */
  lemma TableNamedUseIff(db: Db, c: nat, usable: set<string>, p: Pending, s: Subject)
    requires OnGrid(p) && RowsOfSubjects(usable) && UsableIsCurrent(db, c, usable)
    requires AllAccepted(db, Requests(c, usable, p)) && Without(SEP, s.name)
    ensures var after := HandleAll(db, Requests(c, usable, p));
            && Granted(after, Table(c, s, USE)) == Granted(db, Table(c, s, USE))
            && (Granted(after, Table(c, s, USE)) == Granted(after, CellAt(c, s, USE))
                <==> Granted(db, Table(c, s, USE)) == Effective(p, CellKey(Label(s), USE), Granted(db, Use(c, s))))
  {
    SaveDoesWhatTheScreenShowed(db, c, usable, p, Table(c, s, USE));
    SaveDoesWhatTheScreenShowed(db, c, usable, p, Use(c, s));
  }

  /** The same of the state after a save that carried out all its requests. */
  lemma SavedIsShown(before: Db, after: Db, c: nat, usable: set<string>, p: Pending, cell: Cell)
    requires OnGrid(p) && RowsOfSubjects(usable) && UsableIsCurrent(before, c, usable)
    requires Sent(before, after, Requests(c, usable, p), |Requests(c, usable, p)|)
    ensures Granted(after, cell) == Shown(c, p, cell, Granted(before, cell))
  {
    var reqs := Requests(c, usable, p);
    assert reqs[..|reqs|] == reqs;
    SaveDoesWhatTheScreenShowed(before, c, usable, p, cell);
  }

  /** With an old grid, the list of who may use the connection is replaced by the old list plus the
      changes. So the cells nobody touched survive exactly when no use cell was touched, or the old
      list still agrees with the saved one on them. */
  lemma UntouchedUseSurvivesIff(db: Db, c: nat, usable: set<string>, p: Pending)
    requires OnGrid(p) && RowsOfSubjects(usable) && AllAccepted(db, Requests(c, usable, p))
    ensures (forall s: Subject | Untouched(p, s) ::
               Granted(HandleAll(db, Requests(c, usable, p)), Use(c, s)) == Granted(db, Use(c, s)))
            <==> !ReplacesAccess(p)
                 || forall s: Subject | Untouched(p, s) :: Granted(db, Use(c, s)) == (Label(s) in usable)
  {
    forall s: Subject | Untouched(p, s)
      ensures Granted(HandleAll(db, Requests(c, usable, p)), Use(c, s))
              == if ReplacesAccess(p) then Label(s) in usable else Granted(db, Use(c, s))
    {
      SaveAssigns(db, c, usable, p, Use(c, s));
    }
  }

  ghost predicate Untouched(p: Pending, s: Subject) {
    SEP in s.name || Find(p, CellKey(Label(s), USE)).None?
  }

  // --- trying again -------------------------------------------------------------------------------

  /** The state after attempts that each carried out only so many of the requests. */
  function Attempts(db: Db, reqs: seq<Request>, carried: seq<nat>): Db
    decreases |carried|
  {
    if carried == [] then db
    else Attempts(HandleAll(db, reqs[..if carried[0] <= |reqs| then carried[0] else |reqs|]), reqs, carried[1..])
  }

  lemma {:induction false} PrefixAssigns(reqs: seq<Request>, n: nat, cell: Cell)
    requires n <= |reqs| && LastAssigned(reqs, cell).None?
    ensures LastAssigned(reqs[..n], cell).None?
  {
    assert reqs == reqs[..n] + reqs[n..];
    LastAssignedConcat(reqs[..n], reqs[n..], cell);
  }

  /** Retrying converges: however many attempts broke off, and wherever each one did, a save that
      gets through is accepted and leaves the same grants as one that never failed. */
  lemma {:induction false} RetryConverges(db: Db, reqs: seq<Request>, carried: seq<nat>, cell: Cell)
    requires (forall r | r in reqs :: IsPut(r)) && AllAccepted(db, reqs)
    ensures AllAccepted(Attempts(db, reqs, carried), reqs)
    ensures Granted(HandleAll(Attempts(db, reqs, carried), reqs), cell) == Granted(HandleAll(db, reqs), cell)
    decreases |carried|
  {
    if carried != [] {
      var n := if carried[0] <= |reqs| then carried[0] else |reqs|;
      var mid := HandleAll(db, reqs[..n]);
      AcceptedIff(db, reqs);
      AcceptedIff(db, reqs[..n]);
      AcceptedIff(mid, reqs);
      RetryConverges(mid, reqs, carried[1..], cell);
      HandleAllAssigns(mid, reqs, cell);
      HandleAllAssigns(db, reqs, cell);
      HandleAllAssigns(db, reqs[..n], cell);
      if LastAssigned(reqs, cell).None? {
        PrefixAssigns(reqs, n, cell);
      }
    }
  }
}
