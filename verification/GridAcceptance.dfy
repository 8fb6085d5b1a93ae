/** Which staged changes can be saved at all, however often it is tried. */
module GridAcceptance {
  import opened Results
  import opened Separators
  import opened Subjects
  import opened GrantApi
  import opened Staging
  import opened GridSave

  /** How many tables are staged for a row. */
  function TableCount(p: Pending, row: string): nat {
    if p == [] then 0
    else
      var (r, col) := SplitCell(p[|p| - 1].0);
      TableCount(p[..|p| - 1], row) + if r == row && col != USE then 1 else 0
  }

  lemma {:induction false} TablesOfAppend(list: seq<Change>, last: Change)
    ensures TablesOf(list + [last]) == TablesOf(list) + if last.name != USE then [last] else []
  {
    var all := list + [last];
    if list == [] {
      assert all == [last] && all[1..] == [];
    } else {
      assert all[0] == list[0] && all[1..] == list[1..] + [last];
      TablesOfAppend(list[1..], last);
    }
    var head := if all[0].name != USE then [all[0]] else [];
    assert TablesOf(all) == head + TablesOf(all[1..]);
  }

  lemma {:induction false} TableCountIs(p: Pending, row: string)
    ensures |TablesOf(RowChanges(p, row))| == TableCount(p, row)
    decreases |p|
  {
    if p != [] {
      var n := |p| - 1;
      var (r, col) := SplitCell(p[n].0);
      TableCountIs(p[..n], row);
      if r == row {
        TablesOfAppend(RowChanges(p[..n], row), Change(col, p[n].1));
      } else {
        assert RowChanges(p[..n], row) + [] == RowChanges(p[..n], row);
      }
    }
  }

  lemma {:induction false} InTablesOf(list: seq<Change>, x: Change)
    ensures x in TablesOf(list) <==> x in list && x.name != USE
  {
    if list != [] {
      InTablesOf(list[1..], x);
      assert list == [list[0]] + list[1..];
      assert TablesOf(list) == (if list[0].name != USE then [list[0]] else []) + TablesOf(list[1..]);
    }
  }

  predicate Nameable(s: Subject) {
    1 <= |s.name| <= 200
  }

  /** The tables staged for a subject are few enough and have names of a fitting length. */
  ghost predicate RowFits(p: Pending, s: Subject) {
    TableCount(p, Label(s)) > 0 ==>
      && Nameable(s) && TableCount(p, Label(s)) <= 2000
      && forall t | t != USE && Find(p, CellKey(Label(s), t)).Some? :: 1 <= |t| <= 300
  }

  lemma RowFitsIff(c: nat, p: Pending, s: Subject)
    requires OnGrid(p) && Without(SEP, s.name)
    ensures var group := (Label(s), RowChanges(p, Label(s)));
            (forall r | r in RowRequests(c, group) :: WellShaped(r)) <==> RowFits(p, s)
  {
    var list := RowChanges(p, Label(s));
    var tables := TablesOf(list);
    TableCountIs(p, Label(s));
    ParseLabel(s);
    forall t | t != USE
      ensures Find(p, CellKey(Label(s), t)).Some? <==> Change(t, true) in tables || Change(t, false) in tables
    {
      RowAssigns(p, s, t);
      InTablesOf(list, Change(t, true));
      InTablesOf(list, Change(t, false));
    }
    forall x | x in tables ensures x.name != USE && Find(p, CellKey(Label(s), x.name)).Some? {
      InTablesOf(list, x);
      assert x == Change(x.name, true) || x == Change(x.name, false);
    }
    assert SubjectOf(KindText(s.kind), s.name).Some? <==> Nameable(s);
    if tables != [] {
      var req := ChangeTables(c, KindText(s.kind), s.name, tables);
      assert RowRequests(c, (Label(s), list)) == [req];
      assert WellShaped(req) <==> RowFits(p, s);
    }
  }

  lemma {:induction false} InTableRequests(c: nat, groups: Groups, r: Request)
    ensures r in TableRequests(c, groups) <==> exists g :: g in groups && r in RowRequests(c, g)
  {
    if groups != [] {
      InTableRequests(c, groups[1..], r);
      assert groups == [groups[0]] + groups[1..];
    }
  }

  /** Requests of a group are the requests of that row's changes. */
  lemma GroupIsRow(p: Pending, g: (string, seq<Change>))
    requires OnGrid(p) && g in Grouped(p)
    ensures IsRow(g.0) && g.1 == RowChanges(p, g.0)
  {
    GroupRowsAreRows(p);
    var i :| 0 <= i < |Grouped(p)| && Grouped(p)[i] == g;
    GroupedIs(p, g.0);
    GroupAt(Grouped(p), i);
  }

  lemma TableRequestsFitIff(c: nat, p: Pending)
    requires OnGrid(p)
    ensures (forall r | r in TableRequests(c, Grouped(p)) :: WellShaped(r))
            <==> forall s: Subject | Without(SEP, s.name) :: RowFits(p, s)
  {
    var groups := Grouped(p);
    forall r ensures r in TableRequests(c, groups) <==> exists g :: g in groups && r in RowRequests(c, g) {
      InTableRequests(c, groups, r);
    }
    if forall s: Subject | Without(SEP, s.name) :: RowFits(p, s) {
      forall r | r in TableRequests(c, groups) ensures WellShaped(r) {
        var g :| g in groups && r in RowRequests(c, g);
        GroupIsRow(p, g);
        var s: Subject :| Without(SEP, s.name) && g.0 == Label(s);
        RowFitsIff(c, p, s);
      }
    }
    if forall r | r in TableRequests(c, groups) :: WellShaped(r) {
      forall s: Subject | Without(SEP, s.name) ensures RowFits(p, s) { RowOfGoodRequestsFits(c, p, s); }
    }
  }

  lemma RowOfGoodRequestsFits(c: nat, p: Pending, s: Subject)
    requires OnGrid(p) && Without(SEP, s.name)
    requires forall r | r in TableRequests(c, Grouped(p)) :: WellShaped(r)
    ensures RowFits(p, s)
  {
    var groups, list := Grouped(p), RowChanges(p, Label(s));
    RowFitsIff(c, p, s);
    TableCountIs(p, Label(s));
    GroupedIs(p, Label(s));
    if list != [] {
      var i := GroupExists(groups, Label(s));
      GroupAt(groups, i);
      assert groups[i] == (Label(s), list) && groups[i] in groups;
      forall r | r in RowRequests(c, (Label(s), list)) ensures WellShaped(r) {
        InTableRequests(c, groups, r);
      }
    }
  }

  /** May this subject use the connection after the save? */
  predicate UsableAfter(usable: set<string>, p: Pending, s: Subject) {
    if SEP in s.name then Label(s) in usable else Effective(p, CellKey(Label(s), USE), Label(s) in usable)
  }

  lemma InNextUsableIff(usable: set<string>, p: Pending, s: Subject)
    requires OnGrid(p)
    ensures Label(s) in NextUsable(usable, UseChanges(Grouped(p))) <==> UsableAfter(usable, p, s)
  {
    GroupedIs(p, Label(s));
    GroupsHaveOneUse(p);
    UseChangesAssign(Grouped(p), Label(s));
    RowAssigns(p, s, USE);
    NextUsableIff(usable, UseChanges(Grouped(p)), Label(s));
  }

  lemma AccessFitsIff(c: nat, rows: set<string>)
    requires forall row | row in rows :: exists s: Subject :: row == Label(s)
    ensures WellShaped(AccessRequest(c, rows)) <==> forall s: Subject | Label(s) in rows :: Nameable(s)
  {
    var pairs := AccessRequest(c, rows).subjects;
    if WellShaped(AccessRequest(c, rows)) {
      forall s: Subject | Label(s) in rows ensures Nameable(s) {
        ParseLabel(s);
        assert (KindText(s.kind), s.name) in pairs;
      }
    }
    if forall s: Subject | Label(s) in rows :: Nameable(s) {
      forall pair | pair in pairs ensures SubjectOf(pair.0, pair.1).Some? {
        var row :| row in rows && ParseRow(row) == pair;
        var s: Subject :| row == Label(s);
        ParseLabel(s);
      }
    }
  }

  lemma AccessRequestsFitIff(c: nat, usable: set<string>, p: Pending)
    requires OnGrid(p) && RowsOfSubjects(usable)
    ensures (forall r | r in AccessRequests(c, usable, Grouped(p)) :: WellShaped(r))
            <==> (ReplacesAccess(p) ==> forall s: Subject | UsableAfter(usable, p, s) :: Nameable(s))
  {
    if ReplacesAccess(p) {
      var next := NextUsable(usable, UseChanges(Grouped(p)));
      assert AccessRequests(c, usable, Grouped(p)) == [AccessRequest(c, next)];
      forall s: Subject ensures Label(s) in next <==> UsableAfter(usable, p, s) { InNextUsableIff(usable, p, s); }
      forall row | row in next ensures exists s: Subject :: row == Label(s) { NextRowsAreRows(usable, p, row); }
      AccessFitsIff(c, next);
    }
  }

  /** Is the use cell of any subject staged? That is when the list is replaced. */
  lemma ReplacesAccessIff(p: Pending)
    requires OnGrid(p)
    ensures ReplacesAccess(p) <==> exists s: Subject :: Without(SEP, s.name) && Find(p, CellKey(Label(s), USE)).Some?
  {
    var groups := Grouped(p);
    GroupsHaveOneUse(p);
    GroupedIs(p, "");
    if ReplacesAccess(p) {
      var row := UseChanges(groups)[0].0;
      UseChangesAssign(groups, row);
      GroupedIs(p, row);
      var i := GroupExists(groups, row);
      GroupRowsAreRows(p);
      var s: Subject :| Without(SEP, s.name) && groups[i].0 == Label(s);
      RowAssigns(p, s, USE);
    }
    if s: Subject :| Without(SEP, s.name) && Find(p, CellKey(Label(s), USE)).Some? {
      RowAssigns(p, s, USE);
      GroupedIs(p, Label(s));
      UseChangesAssign(groups, Label(s));
    }
  }

  lemma NothingIsSentIff(c: nat, usable: set<string>, p: Pending)
    requires OnGrid(p)
    ensures Requests(c, usable, p) == [] <==> p == []
  {
    if p != [] {
      assert IsGridKey(p[0].0);
      var s: Subject, col: string :| IsCellOf(p[0].0, s, col);
      FindIff(p, p[0].0);
      assert (p[0].0, p[0].1) in p;
      if col == USE {
        ReplacesAccessIff(p);
      } else {
        TableIsSent(c, p, s, col);
      }
    }
  }

  lemma TableIsSent(c: nat, p: Pending, s: Subject, t: string)
    requires OnGrid(p) && Without(SEP, s.name) && t != USE && Find(p, CellKey(Label(s), t)).Some?
    ensures TableRequests(c, Grouped(p)) != []
  {
    var groups, list := Grouped(p), RowChanges(p, Label(s));
    RowAssigns(p, s, t);
    InTablesOf(list, Change(t, Find(p, CellKey(Label(s), t)).value));
    GroupedIs(p, Label(s));
    var i := GroupExists(groups, Label(s));
    GroupAt(groups, i);
    ParseLabel(s);
    var req := ChangeTables(c, KindText(s.kind), s.name, TablesOf(list));
    assert groups[i] in groups && req in RowRequests(c, groups[i]);
    InTableRequests(c, groups, req);
  }

  /** Which pending maps can be saved at all: the connection exists, no row has too many tables, names
      have a fitting length, and if a use cell is staged so have those of everybody on the list. */
  lemma SaveIsAcceptedIff(db: Db, c: nat, usable: set<string>, p: Pending)
    requires OnGrid(p) && RowsOfSubjects(usable)
    ensures AllAccepted(db, Requests(c, usable, p)) <==>
            && (p == [] || c in db.connections)
            && (forall s: Subject | Without(SEP, s.name) :: RowFits(p, s))
            && (ReplacesAccess(p) ==> forall s: Subject | UsableAfter(usable, p, s) :: Nameable(s))
  {
    RequestsArePuts(c, usable, p);
    AcceptedIff(db, Requests(c, usable, p));
    NothingIsSentIff(c, usable, p);
    TableRequestsFitIff(c, p);
    AccessRequestsFitIff(c, usable, p);
    var reqs := Requests(c, usable, p);
    assert reqs != [] ==> reqs[0] in reqs;
    assert forall r :: r in reqs <==> r in AccessRequests(c, usable, Grouped(p)) || r in TableRequests(c, Grouped(p));
  }

  // --- the requests, spelled out ------------------------------------------------------------------

  lemma RowRequestIsFor(c: nat, group: (string, seq<Change>), r: Request)
    requires IsRow(group.0) && r in RowRequests(c, group)
    ensures r.ChangeTables? && r.connection == c && RowOf(r) == group.0
  {
    var s: Subject :| Without(SEP, s.name) && group.0 == Label(s);
    ParseLabel(s);
  }

  lemma {:induction false} TableRequestsAreFor(c: nat, groups: Groups)
    requires forall g | g in groups :: IsRow(g.0)
    ensures forall r | r in TableRequests(c, groups) :: r.ChangeTables? && r.connection == c && RowOf(r) in Rows(groups)
  {
    forall r | r in TableRequests(c, groups)
      ensures r.ChangeTables? && r.connection == c && RowOf(r) in Rows(groups)
    {
      InTableRequests(c, groups, r);
      var g :| g in groups && r in RowRequests(c, g);
      RowRequestIsFor(c, g, r);
    }
  }

  /** No two requests are for the same row. */
  ghost predicate DistinctRows(reqs: seq<Request>) {
    && (forall i | 0 <= i < |reqs| :: reqs[i].ChangeTables?)
    && forall i, j | 0 <= i < j < |reqs| :: RowOf(reqs[i]) != RowOf(reqs[j])
  }

  lemma DistinctCons(head: seq<Request>, tail: seq<Request>)
    requires |head| <= 1 && DistinctRows(tail)
    requires forall r | r in head :: r.ChangeTables?
    requires forall r | r in tail :: forall h | h in head :: RowOf(h) != RowOf(r)
    ensures DistinctRows(head + tail)
  {
    var reqs, n := head + tail, |head|;
    forall i | 0 <= i < |reqs| ensures reqs[i].ChangeTables? {
      if i < n { assert reqs[i] in head; } else { assert reqs[i] == tail[i - n]; }
    }
    forall i, j | 0 <= i < j < |reqs| ensures RowOf(reqs[i]) != RowOf(reqs[j]) {
      assert reqs[j] == tail[j - n] && tail[j - n] in tail;
      if i < n { assert reqs[i] in head; } else { assert reqs[i] == tail[i - n]; }
    }
  }

  lemma {:induction false} RowsAreDistinct(c: nat, groups: Groups)
    requires WellGrouped(groups) && forall g | g in groups :: IsRow(g.0)
    ensures DistinctRows(TableRequests(c, groups))
  {
    if groups != [] {
      var rest := groups[1..];
      assert forall i | 0 <= i < |rest| :: rest[i] == groups[i + 1];
      assert groups[0] in groups && forall g | g in rest :: g in groups;
      RowsAreDistinct(c, rest);
      TableRequestsAreFor(c, rest);
      assert groups[0].0 !in Rows(rest);
      forall h | h in RowRequests(c, groups[0]) ensures h.ChangeTables? && RowOf(h) == groups[0].0 {
        RowRequestIsFor(c, groups[0], h);
      }
      DistinctCons(RowRequests(c, groups[0]), TableRequests(c, rest));
    }
  }

  /** The row that a request is for. */
  function RowOf(r: Request): string
    requires r.ChangeTables?
  {
    r.subjectType + ":" + r.subjectId
  }

  function Rows(groups: Groups): set<string> {
    set g | g in groups :: g.0
  }

  /** Who may use the connection goes first, if it changes; then one request for each subject. */
  lemma RequestsSpelled(c: nat, usable: set<string>, p: Pending)
    requires OnGrid(p)
    ensures var reqs := Requests(c, usable, p);
            && (forall i | 0 <= i < |reqs| :: (reqs[i].SetAccess? || reqs[i].ChangeTables?) && reqs[i].connection == c)
            && (forall i | 0 <= i < |reqs| && reqs[i].SetAccess? :: i == 0)
            && forall i, j | 0 <= i < j < |reqs| && reqs[i].ChangeTables? ::
                 && reqs[j].ChangeTables?
                 && (reqs[i].subjectType != reqs[j].subjectType || reqs[i].subjectId != reqs[j].subjectId)
  {
    GroupRowsAreRows(p);
    GroupedIs(p, "");
    RowsAreDistinct(c, Grouped(p));
    TableRequestsAreFor(c, Grouped(p));
    FirstThenRows(c, AccessRequests(c, usable, Grouped(p)), TableRequests(c, Grouped(p)));
  }

  lemma FirstThenRows(c: nat, first: seq<Request>, rest: seq<Request>)
    requires |first| <= 1 && forall r | r in first :: r.SetAccess? && r.connection == c
    requires forall r | r in rest :: r.ChangeTables? && r.connection == c
    requires DistinctRows(rest)
    ensures var reqs := first + rest;
            && (forall i | 0 <= i < |reqs| :: (reqs[i].SetAccess? || reqs[i].ChangeTables?) && reqs[i].connection == c)
            && (forall i | 0 <= i < |reqs| && reqs[i].SetAccess? :: i == 0)
            && forall i, j | 0 <= i < j < |reqs| && reqs[i].ChangeTables? ::
                 && reqs[j].ChangeTables?
                 && (reqs[i].subjectType != reqs[j].subjectType || reqs[i].subjectId != reqs[j].subjectId)
  {
    var reqs, n := first + rest, |first|;
    forall i | 0 <= i < |reqs|
      ensures if i < n then reqs[i].SetAccess? && reqs[i].connection == c && i == 0
              else reqs[i] == rest[i - n] && reqs[i].ChangeTables? && reqs[i].connection == c
    {
      if i < n {
        assert reqs[i] == first[i] && first[i] in first;
      } else {
        assert reqs[i] == rest[i - n] && rest[i - n] in rest;
      }
    }
    forall i, j | 0 <= i < j < |reqs| && reqs[i].ChangeTables?
      ensures reqs[i].subjectType != reqs[j].subjectType || reqs[i].subjectId != reqs[j].subjectId
    {
      assert RowOf(rest[i - n]) != RowOf(rest[j - n]);
    }
  }

  /** One staged cell, from its key to its request. */
  lemma OneCellSpelled(c: nat, user: bool, name: string, table: string, granted: bool)
    requires '\0' !in name
    ensures var kind := if user then "user" else "role";
            Requests(c, {}, [(kind + ":" + name + "\0" + table, granted)]) ==
            if table == "__use__" then [SetAccess(c, if granted then {(kind, name)} else {})]
            else [ChangeTables(c, kind, name, [Change(table, granted)])]
  {
    var s := Subject(if user then User else Role, name);
    var p, list := [(CellKey(Label(s), table), granted)], [Change(table, granted)];
    assert (if user then "user" else "role") + ":" + name + "\0" + table == CellKey(Label(s), table);
    SplitCellKey(Label(s), table);
    ParseLabel(s);
    assert p[..0] == [] && Grouped(p[..0]) == [] && Grouped(p) == Push([], Label(s), Change(table, granted));
    var groups := Grouped(p);
    assert groups == [(Label(s), list)] && groups[1..] == [] && list[1..] == [];
    assert TablesOf([]) == [] && UsesIn(Label(s), []) == [] && UseChanges([]) == [] && TableRequests(c, []) == [];
    assert UseChanges(groups) == UsesIn(Label(s), list) == if table == USE then [(Label(s), granted)] else [];
    assert TablesOf(list) == if table != USE then list else [];
    assert TableRequests(c, groups) == RowRequests(c, groups[0]);
    if table == USE {
      UseCellRequest(c, s, granted);
      assert TableRequests(c, groups) == [];
    } else {
      assert AccessRequests(c, {}, groups) == [];
    }
  }

  lemma UseCellRequest(c: nat, s: Subject, granted: bool)
    ensures var uses := [(Label(s), granted)];
            AccessRequest(c, NextUsable({}, uses)) == SetAccess(c, if granted then {(KindText(s.kind), s.name)} else {})
  {
    var uses := [(Label(s), granted)];
    assert uses[1..] == [];
    ParseLabel(s);
    assert NextUsable({}, uses) == if granted then {Label(s)} else {};
    var rows := NextUsable({}, uses);
    assert (set row | row in rows :: ParseRow(row)) == if granted then {ParseRow(Label(s))} else {};
  }
}
