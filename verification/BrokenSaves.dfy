/** Saves that broke off: what they leave in effect, and when the screen still tells the truth. */
module BrokenSaves {
  import opened Results
  import opened Separators
  import opened Subjects
  import opened GrantApi
  import opened Staging
  import opened GridSave
  import opened GridAcceptance

  /** Pending are only changes. */
  ghost predicate DiffersFromSaved(db: Db, c: nat, p: Pending) {
    forall s: Subject, col: string | Without(SEP, s.name) ::
      Find(p, CellKey(Label(s), col)) != Some(Granted(db, CellAt(c, s, col)))
  }

  /** Every grant ends as the screen shows it. */
  ghost predicate AllShown(before: Db, after: Db, c: nat, q: Pending) {
    forall cell :: Granted(after, cell) == Shown(c, q, cell, Granted(before, cell))
  }

  // --- what is in effect after a save that broke off --------------------------------------------

  /** A request of a save gives a grant the value that the screen shows for it. */
  lemma RequestSetsWhatIsShown(before: Db, c: nat, usable: set<string>, p: Pending, r: Request, cell: Cell)
    requires OnGrid(p) && RowsOfSubjects(usable) && UsableIsCurrent(before, c, usable)
    requires r in Requests(c, usable, p) && WellShaped(r) && Assigns(r, cell).Some?
    ensures Assigns(r, cell).value == Shown(c, p, cell, Granted(before, cell))
    ensures !cell.Use? ==> HasCell(c, cell) && StagedAt(p, cell).Some?
  {
    if r in AccessRequests(c, usable, Grouped(p)) {
      AccessRequestSets(before, c, usable, p, r, cell);
    } else {
      TableRequestSets(before, c, p, r, cell);
    }
  }

  /** What is staged for a grant that the grid has a cell for. */
  function StagedAt(p: Pending, cell: Cell): Option<bool> {
    Find(p, CellKey(Label(cell.subject), ColumnOf(cell)))
  }

  lemma AccessRequestSets(before: Db, c: nat, usable: set<string>, p: Pending, r: Request, cell: Cell)
    requires OnGrid(p) && RowsOfSubjects(usable) && UsableIsCurrent(before, c, usable)
    requires r in AccessRequests(c, usable, Grouped(p)) && WellShaped(r) && Assigns(r, cell).Some?
    ensures cell.Use? && Assigns(r, cell).value == Shown(c, p, cell, Granted(before, cell))
  {
    var reqs := AccessRequests(c, usable, Grouped(p));
    assert reqs == [r] && reqs[1..] == [];
    AccessAssigns(c, usable, p, cell.subject);
  }

  lemma TableRequestSets(before: Db, c: nat, p: Pending, r: Request, cell: Cell)
    requires OnGrid(p)
    requires r in TableRequests(c, Grouped(p)) && WellShaped(r) && Assigns(r, cell).Some?
    ensures cell.Table? && HasCell(c, cell) && StagedAt(p, cell) == Assigns(r, cell)
  {
    InTableRequests(c, Grouped(p), r);
    var g :| g in Grouped(p) && r in RowRequests(c, g);
    GroupIsRow(p, g);
    assert RowRequests(c, g) == [r] && [r][1..] == [];
    var s: Subject :| Without(SEP, s.name) && g.0 == Label(s);
    if cell.Table? && cell.connection == c {
      RowRequestAssigns(c, g, cell.subject, cell.table);
      RowAssigns(p, cell.subject, cell.table);
    }
  }

  lemma {:induction false} LastAssignedIs(reqs: seq<Request>, cell: Cell, v: bool)
    requires forall r | r in reqs :: Assigns(r, cell) == None || Assigns(r, cell) == Some(v)
    ensures LastAssigned(reqs, cell) == if exists r :: r in reqs && Assigns(r, cell).Some? then Some(v) else None
  {
    if reqs != [] {
      LastAssignedIs(reqs[1..], cell, v);
      assert reqs == [reqs[0]] + reqs[1..];
    }
  }

  lemma CarriedIsWellShaped(before: Db, c: nat, usable: set<string>, p: Pending, n: nat)
    requires n <= |Requests(c, usable, p)| && AllAccepted(before, Requests(c, usable, p)[..n])
    ensures forall r | r in Requests(c, usable, p)[..n] :: r in Requests(c, usable, p) && WellShaped(r)
  {
    RequestsArePuts(c, usable, p);
    assert forall r | r in Requests(c, usable, p)[..n] :: r in Requests(c, usable, p);
    AcceptedIff(before, Requests(c, usable, p)[..n]);
  }

  /** One of the first `n` requests sets this cell. */
  ghost predicate Reached(c: nat, usable: set<string>, p: Pending, n: nat, cell: Cell) {
    n <= |Requests(c, usable, p)| && exists r :: r in Requests(c, usable, p)[..n] && Assigns(r, cell).Some?
  }

  lemma LeftByCarried(before: Db, mid: Db, c: nat, usable: set<string>, p: Pending, n: nat, cell: Cell)
    requires OnGrid(p) && RowsOfSubjects(usable) && UsableIsCurrent(before, c, usable)
    requires Sent(before, mid, Requests(c, usable, p), n)
    ensures Granted(mid, cell) ==
            if Reached(c, usable, p, n, cell) then Shown(c, p, cell, Granted(before, cell)) else Granted(before, cell)
  {
    var reqs, v := Requests(c, usable, p)[..n], Shown(c, p, cell, Granted(before, cell));
    CarriedIsWellShaped(before, c, usable, p, n);
    forall r | r in reqs && Assigns(r, cell).Some? ensures Assigns(r, cell).value == v {
      RequestSetsWhatIsShown(before, c, usable, p, r, cell);
    }
    LastAssignedIs(reqs, cell, v);
    HandleAllAssigns(before, reqs, cell);
  }

  /** And it was staged. */
  ghost predicate CarriedOut(c: nat, usable: set<string>, p: Pending, n: nat, cell: Cell) {
    HasCell(c, cell) && StagedAt(p, cell).Some? && Reached(c, usable, p, n, cell)
  }

  /** The grants that a broken-off save changed are those of the staged cells that it carried out. */
  lemma ChangedIff(before: Db, mid: Db, c: nat, usable: set<string>, p: Pending, n: nat, cell: Cell)
    requires OnGrid(p) && RowsOfSubjects(usable) && UsableIsCurrent(before, c, usable)
    requires DiffersFromSaved(before, c, p) && Sent(before, mid, Requests(c, usable, p), n)
    ensures Granted(mid, cell) != Granted(before, cell) <==> CarriedOut(c, usable, p, n, cell)
  {
    LeftByCarried(before, mid, c, usable, p, n, cell);
    if HasCell(c, cell) {
      assert cell == CellAt(c, cell.subject, ColumnOf(cell));
    }
  }

  // --- saving again with something else staged --------------------------------------------------

  /** Does a save of `q` set this grant? The list of who may use the connection is set as a whole. */
  ghost predicate Sets(c: nat, q: Pending, cell: Cell) {
    match cell
    case Use(e, _) => e == c && ReplacesAccess(q)
    case Table(_, _, _) => HasCell(c, cell) && StagedAt(q, cell).Some?
    case Tool(_, _) => false
  }

  /** A later save of `q` sets every cell again that the broken-off save of `p` carried out. */
  ghost predicate SetsAgain(c: nat, usable: set<string>, p: Pending, n: nat, q: Pending) {
    forall cell :: CarriedOut(c, usable, p, n, cell) ==> Sets(c, q, cell)
  }

  /** In whatever state a save of `q` finds the grants: it ends as the screen showed if and only if it
      sets every grant that is not as the screen was read. */
  lemma CellEndsAsShownIff(before: Db, mid: Db, c: nat, usable: set<string>, q: Pending, cell: Cell)
    requires OnGrid(q) && RowsOfSubjects(usable) && UsableIsCurrent(before, c, usable)
    requires AllAccepted(mid, Requests(c, usable, q))
    ensures Granted(HandleAll(mid, Requests(c, usable, q)), cell) == Shown(c, q, cell, Granted(before, cell))
            <==> Granted(mid, cell) == Granted(before, cell) || Sets(c, q, cell)
  {
    SaveAssigns(mid, c, usable, q, cell);
    if cell.Use? && HasCell(c, cell) {
      ReplacesAccessIff(q);
      assert StagedAt(q, cell).Some? ==> ReplacesAccess(q);
    }
  }

  /** After a save that broke off, a later one that gets through ends as the screen showed if and only
      if it sets every cell again that the first one carried out. */
  lemma LaterSaveMendsIff(before: Db, mid: Db, c: nat, usable: set<string>, p: Pending, n: nat, q: Pending)
    requires OnGrid(p) && OnGrid(q) && RowsOfSubjects(usable) && UsableIsCurrent(before, c, usable)
    requires DiffersFromSaved(before, c, p) && Sent(before, mid, Requests(c, usable, p), n)
    requires AllAccepted(mid, Requests(c, usable, q))
    ensures AllShown(before, HandleAll(mid, Requests(c, usable, q)), c, q) <==> SetsAgain(c, usable, p, n, q)
  {
    var after := HandleAll(mid, Requests(c, usable, q));
    if AllShown(before, after, c, q) {
      forall cell | CarriedOut(c, usable, p, n, cell) ensures Sets(c, q, cell) {
        CellIsMendedIff(before, mid, c, usable, p, n, q, cell);
      }
    }
    if SetsAgain(c, usable, p, n, q) {
      forall cell ensures Granted(after, cell) == Shown(c, q, cell, Granted(before, cell)) {
        CellIsMendedIff(before, mid, c, usable, p, n, q, cell);
      }
    }
  }

  lemma CellIsMendedIff(before: Db, mid: Db, c: nat, usable: set<string>, p: Pending, n: nat, q: Pending, cell: Cell)
    requires OnGrid(p) && OnGrid(q) && RowsOfSubjects(usable) && UsableIsCurrent(before, c, usable)
    requires DiffersFromSaved(before, c, p) && Sent(before, mid, Requests(c, usable, p), n)
    requires AllAccepted(mid, Requests(c, usable, q))
    ensures Granted(HandleAll(mid, Requests(c, usable, q)), cell) == Shown(c, q, cell, Granted(before, cell))
            <==> (CarriedOut(c, usable, p, n, cell) ==> Sets(c, q, cell))
  {
    CellEndsAsShownIff(before, mid, c, usable, q, cell);
    ChangedIff(before, mid, c, usable, p, n, cell);
  }

  // --- discarding --------------------------------------------------------------------------------

  /** The first request of a save sets some cell that is staged. */
  lemma FirstRequestSetsACell(c: nat, usable: set<string>, p: Pending) returns (cell: Cell)
    requires OnGrid(p) && Requests(c, usable, p) != [] && WellShaped(Requests(c, usable, p)[0])
    ensures HasCell(c, cell) && StagedAt(p, cell).Some? && Assigns(Requests(c, usable, p)[0], cell).Some?
  {
    if ReplacesAccess(p) {
      ReplacesAccessIff(p);
      var s: Subject :| Without(SEP, s.name) && Find(p, CellKey(Label(s), USE)).Some?;
      cell := Use(c, s);
    } else {
      var r := TableRequests(c, Grouped(p))[0];
      assert Requests(c, usable, p)[0] == r && r in TableRequests(c, Grouped(p));
      cell := TableRequestSetsACell(c, p, r);
      TableRequestSets(Db(map[], {}, {}, {}, {}, []), c, p, r, cell);
    }
  }

  lemma TableRequestSetsACell(c: nat, p: Pending, r: Request) returns (cell: Cell)
    requires OnGrid(p) && r in TableRequests(c, Grouped(p)) && WellShaped(r)
    ensures Assigns(r, cell).Some?
  {
    InTableRequests(c, Grouped(p), r);
    var g :| g in Grouped(p) && r in RowRequests(c, g);
    var x := r.changes[0];
    assert x in r.changes && (x == Change(x.name, true) || x == Change(x.name, false));
    cell := Table(c, SubjectOf(r.subjectType, r.subjectId).value, x.name);
  }

  /** When a save that failed is discarded, the screen goes back to what was read. It shows what is in
      effect if and only if not a single request was carried out. */
  lemma DiscardedScreenIsTrueIff(before: Db, mid: Db, c: nat, usable: set<string>, p: Pending, n: nat)
    requires OnGrid(p) && RowsOfSubjects(usable) && UsableIsCurrent(before, c, usable)
    requires DiffersFromSaved(before, c, p) && Sent(before, mid, Requests(c, usable, p), n)
    ensures AllShown(before, mid, c, []) <==> n == 0
  {
    var reqs := Requests(c, usable, p);
    if n > 0 {
      CarriedIsWellShaped(before, c, usable, p, n);
      assert reqs[..n][0] == reqs[0] && reqs[0] in reqs[..n];
      var cell := FirstRequestSetsACell(c, usable, p);
      assert CarriedOut(c, usable, p, n, cell);
      ChangedIff(before, mid, c, usable, p, n, cell);
      assert Granted(mid, cell) != Shown(c, [], cell, Granted(before, cell));
    }
  }
}
