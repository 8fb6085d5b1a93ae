/** The state behind a permission grid: staged cells and the save flow around them. */
module StagedGrid {
  import opened Results
  import opened Separators
  import opened Subjects
  import opened GrantApi
  import opened Staging
  import opened GridSave

  // --- what will be revoked -------------------------------------------------------------------

  /** The columns that lose their grant, by row. */
  function Revoked(p: Pending): Groups {
    if p == [] then []
    else
      var (row, col) := SplitCell(p[|p| - 1].0);
      if p[|p| - 1].1 then Revoked(p[..|p| - 1]) else Push(Revoked(p[..|p| - 1]), row, Change(col, false))
  }

  method Revocations(p: Pending) returns (out: Groups)
    ensures out == Revoked(p)
  {
    out := [];
    for i := 0 to |p|
      invariant out == Revoked(p[..i])
    {
      var (row, col) := SplitCell(p[i].0);
      if !p[i].1 {
        out := Push(out, row, Change(col, false));
      }
      assert p[..i + 1][..i] == p[..i];
    }
    assert p[..|p|] == p;
  }

  /** Each row lists exactly its revoked columns, so nothing is revoked without being named. */
  lemma {:induction false} RevokedIs(p: Pending, row: string, c: Change)
    ensures WellGrouped(Revoked(p))
    ensures c in GroupOf(Revoked(p), row) <==> !c.granted && c in RowChanges(p, row)
    decreases |p|
  {
    if p != [] {
      var n := |p| - 1;
      var (r, col) := SplitCell(p[n].0);
      RevokedIs(p[..n], row, c);
      PushGroups(Revoked(p[..n]), r, Change(col, false), row);
    }
  }

  lemma {:induction false} RevokedIsEmptyIff(p: Pending)
    ensures Revoked(p) == [] <==> forall i | 0 <= i < |p| :: p[i].1
    decreases |p|
  {
    if p != [] {
      var n := |p| - 1;
      RevokedIsEmptyIff(p[..n]);
      assert forall i | 0 <= i < n :: p[..n][i] == p[i];
    }
  }

  /** Staging several cells with the same wanted value. */
  function StageAll(p: Pending, cells: seq<(string, string)>, saved: (string, string) -> bool, wanted: bool): Pending
    decreases |cells|
  {
    if cells == [] then p
    else
      var (row, col) := cells[0];
      StageAll(Stage(p, CellKey(row, col), saved(row, col), wanted), cells[1..], saved, wanted)
  }

  class Grid {
    var pending: Pending
    var busy: bool
    var failed: bool
    var confirming: bool
    var savedCount: Option<nat>

    constructor ()
      ensures pending == [] && !busy && !failed && !confirming && savedCount == None
    {
      pending := [];
      busy, failed, confirming, savedCount := false, false, false, None;
    }

    method Set(cells: seq<(string, string)>, granted: bool, saved: (string, string) -> bool)
      modifies this
      ensures pending == StageAll(old(pending), cells, saved, granted)
      ensures savedCount == None && !failed && busy == old(busy) && confirming == old(confirming)
    {
      savedCount, failed := None, false;
      var next := pending;
      for i := 0 to |cells|
        invariant StageAll(next, cells[i..], saved, granted) == StageAll(old(pending), cells, saved, granted)
        invariant unchanged(`pending) && savedCount == None && !failed && busy == old(busy)
                  && confirming == old(confirming)
      {
        var (row, col) := cells[i];
        next := Stage(next, CellKey(row, col), saved(row, col), granted);
        assert cells[i..][1..] == cells[i + 1..];
      }
      pending := next;
    }

    /** Asks for confirmation exactly when something would be revoked; otherwise the save may begin. */
    method RequestSave() returns (begin: bool)
      modifies this
      ensures begin <==> forall i | 0 <= i < |pending| :: pending[i].1
      ensures confirming == (old(confirming) || !begin)
      ensures unchanged(`pending) && unchanged(`busy) && unchanged(`failed) && unchanged(`savedCount)
    {
      RevokedIsEmptyIff(pending);
      var out := Revocations(pending);
      if |out| > 0 {
        confirming := true;
        return false;
      }
      return true;
    }

    method CancelConfirm()
      modifies this
      ensures !confirming && unchanged(`pending) && unchanged(`busy) && unchanged(`failed) && unchanged(`savedCount)
    {
      confirming := false;
    }

    method BeginSave() returns (captured: Pending)
      modifies this
      ensures captured == pending == old(pending) && busy && !failed
      ensures unchanged(`confirming) && unchanged(`savedCount)
    {
      busy, failed := true, false;
      captured := pending;
    }

    /** The end of a save. A success empties the map, and with it whatever was staged meanwhile;
        a failure keeps it. */
    method EndSave(captured: Pending, ok: bool)
      modifies this
      ensures !busy && !confirming
      ensures pending == if ok then [] else old(pending)
      ensures failed == (old(failed) || !ok)
      ensures savedCount == if ok then Some(|captured|) else old(savedCount)
    {
      confirming := false;
      if ok {
        pending := [];
        savedCount := Some(|captured|);
      } else {
        failed := true;
      }
      busy := false;
    }

    /** `doSave` with nobody staging anything meanwhile: either everything that was staged has been
        carried out, or the map is as it was and the same save can be tried again. */
    method DoSave(api: AdminApi, connection: nat, usable: set<string>, deliveries: nat -> Delivery)
      returns (ok: bool, ghost n: nat)
      requires api as object != this
      modifies this, api
      ensures Sent(old(api.Snapshot()), api.Snapshot(), Requests(connection, usable, old(pending)), n)
      ensures ok ==> n == |Requests(connection, usable, old(pending))|
      ensures pending == if ok then [] else old(pending)
      ensures ok <==> GetsThrough(old(api.Snapshot()), Requests(connection, usable, old(pending)), deliveries, 0)
      ensures n == Carried(old(api.Snapshot()), Requests(connection, usable, old(pending)), deliveries, 0)
      ensures !busy && !confirming && failed == !ok
      // A save from an up-to-date grid leaves every grant as the screen showed it.
      ensures ok && OnGrid(old(pending)) && RowsOfSubjects(usable)
              && UsableIsCurrent(old(api.Snapshot()), connection, usable) ==>
                forall cell ::
                  Granted(api.Snapshot(), cell)
                  == Shown(connection, old(pending), cell, Granted(old(api.Snapshot()), cell))
    {
      ghost var before, staged := api.Snapshot(), pending;
      var captured := BeginSave();
      ok, n := Write(api, connection, usable, captured, deliveries);
      EndSave(captured, ok);
      if ok && OnGrid(staged) && RowsOfSubjects(usable) && UsableIsCurrent(before, connection, usable) {
        forall cell ensures Granted(api.Snapshot(), cell) == Shown(connection, staged, cell, Granted(before, cell)) {
          SavedIsShown(before, api.Snapshot(), connection, usable, staged, cell);
        }
      }
    }

    method Discard()
      modifies this
      ensures pending == [] && !failed && unchanged(`busy) && unchanged(`confirming) && unchanged(`savedCount)
    {
      pending, failed := [], false;
    }
  }

  // --- what staging builds ----------------------------------------------------------------------

  /** The cells that the grid has: rows of subjects, in whose names the separator does not occur. */
  ghost predicate GridCells(cells: seq<(string, string)>) {
    forall cell | cell in cells ::
      exists s: Subject :: IsCellOf(CellKey(cell.0, cell.1), s, cell.1) && cell.0 == Label(s)
  }

  lemma {:induction false} StageAllStaysOnGrid(p: Pending, cells: seq<(string, string)>,
                                               saved: (string, string) -> bool, wanted: bool)
    requires OnGrid(p) && GridCells(cells)
    ensures OnGrid(StageAll(p, cells, saved, wanted))
    decreases |cells|
  {
    if cells != [] {
      var (row, col) := cells[0];
      var key := CellKey(row, col);
      var q := Stage(p, key, saved(row, col), wanted);
      PutFinds(p, key, wanted, key);
      DeleteFinds(p, key, key);
      assert cells[0] in cells;
      var s: Subject :| IsCellOf(CellKey(row, col), s, col) && row == Label(s);
      forall i | 0 <= i < |q| ensures IsGridKey(q[i].0) {
        assert q[i] in q;
        if q[i] in p {
          var j :| 0 <= j < |p| && p[j] == q[i];
        }
      }
      StageAllStaysOnGrid(q, cells[1..], saved, wanted);
    }
  }

  /** After staging, each named cell shows the wanted value and every other cell what it showed. */
  lemma {:induction false} StageAllShows(p: Pending, cells: seq<(string, string)>, saved: (string, string) -> bool,
                                         wanted: bool, row: string, col: string)
    requires Distinct(p) && Without(SEP, row) && forall cell | cell in cells :: Without(SEP, cell.0)
    ensures Distinct(StageAll(p, cells, saved, wanted))
    ensures Effective(StageAll(p, cells, saved, wanted), CellKey(row, col), saved(row, col))
            == if (row, col) in cells then wanted else Effective(p, CellKey(row, col), saved(row, col))
    decreases |cells|
  {
    if cells != [] {
      var (r, c) := cells[0];
      var q := Stage(p, CellKey(r, c), saved(r, c), wanted);
      assert cells == [cells[0]] + cells[1..];
      SplitCellKey(r, c);
      SplitCellKey(row, col);
      StageSets(p, CellKey(r, c), saved(r, c), wanted, CellKey(row, col), saved(row, col));
      StageAllShows(q, cells[1..], saved, wanted, row, col);
    }
  }

  /** Staging the opposite of what is saved, and then what is saved, leaves no trace. */
  lemma {:induction false} StagingTwiceUndoes(p: Pending, key: string, saved: bool)
    requires Find(p, key).None?
    ensures Stage(Stage(p, key, saved, !saved), key, saved, saved) == p
  {
    if p != [] {
      StagingTwiceUndoes(p[1..], key, saved);
    }
  }

  /** A cell staged while a save is in flight is neither saved nor kept: here the save of `first`
      succeeds, `second` was staged meanwhile, and afterwards it is not granted and not pending. */
  method CellStagedDuringSaveIsLost(api: AdminApi, connection: nat, first: string, second: string)
    returns (ok: bool, grid: Grid)
    requires connection in api.connections && first != second && first != USE && second != USE
    requires 1 <= |first| <= 300 && !Granted(api.Snapshot(), Table(connection, Subject(User, "u"), second))
    requires !Granted(api.Snapshot(), Table(connection, Subject(User, "u"), first))
    modifies api
    ensures ok && grid.pending == []
    ensures Granted(api.Snapshot(), Table(connection, Subject(User, "u"), first))
    ensures !Granted(api.Snapshot(), Table(connection, Subject(User, "u"), second))
  {
    grid := new Grid();
    var s := Subject(User, "u");
    var saved := (row: string, col: string) => false;
    grid.Set([(Label(s), first)], true, saved);
    var captured := grid.BeginSave();
    var p := [(CellKey(Label(s), first), true)];
    assert StageAll([], [(Label(s), first)], saved, true) == p by {
      assert [(Label(s), first)][1..] == [];
    }
    grid.Set([(Label(s), second)], true, saved);
    ghost var db := api.Snapshot();
    OneCellSaves(db, connection, s, first, second);
    GetsThroughIff(db, Requests(connection, {}, p), i => Delivered, 0);
    ghost var n;
    ok, n := Write(api, connection, {}, captured, i => Delivered);
    assert Requests(connection, {}, p)[..n] == Requests(connection, {}, p);
    grid.EndSave(captured, ok);
  }

  /** Saving one cell, which is not the use cell, is one request. */
  lemma OneCellRequests(connection: nat, s: Subject, table: string)
    requires Without(SEP, s.name) && table != USE
    ensures var p := [(CellKey(Label(s), table), true)];
            OnGrid(p) && Requests(connection, {}, p) ==
              [ChangeTables(connection, KindText(s.kind), s.name, [Change(table, true)])]
  {
    var key := CellKey(Label(s), table);
    var p, list := [(key, true)], [Change(table, true)];
    SplitCellKey(Label(s), table);
    assert IsCellOf(key, s, table) && p[..0] == [];
    var groups := Grouped(p);
    assert Grouped(p[..0]) == [] && groups == Push(Grouped(p[..0]), Label(s), Change(table, true));
    assert groups == [(Label(s), list)] && groups[1..] == [];
    assert list[1..] == [] && TablesOf(list[1..]) == [] && UsesIn(Label(s), list[1..]) == [];
    assert TablesOf(list) == list && UsesIn(Label(s), list) == [];
    assert UseChanges(groups[1..]) == [] && TableRequests(connection, groups[1..]) == [];
    ParseLabel(s);
  }

  lemma OneCellAssigns(connection: nat, s: Subject, table: string, other: string)
    requires s == Subject(User, "u")
    ensures LastAssigned([ChangeTables(connection, "user", "u", [Change(table, true)])], Table(connection, s, other))
            == if other == table then Some(true) else None
  {
    var reqs := [ChangeTables(connection, "user", "u", [Change(table, true)])];
    assert reqs[1..] == [];
    assert Assigns(reqs[0], Table(connection, s, other)) == if other == table then Some(true) else None;
  }

  lemma OneCellIsAccepted(db: Db, connection: nat, table: string)
    requires connection in db.connections && 1 <= |table| <= 300
    ensures AllAccepted(db, [ChangeTables(connection, "user", "u", [Change(table, true)])])
  {
    var changes := [Change(table, true)];
    var reqs := [ChangeTables(connection, "user", "u", changes)];
    assert forall x | x in changes :: 1 <= |x.name| <= 300;
    assert RefusalOf(db, reqs[0]).None?;
    assert reqs[1..] == [];
  }

  lemma OneCellSaves(db: Db, connection: nat, s: Subject, first: string, second: string)
    requires connection in db.connections && first != second && first != USE
    requires s == Subject(User, "u") && 1 <= |first| <= 300
    ensures var p := [(CellKey(Label(s), first), true)];
            && AllAccepted(db, Requests(connection, {}, p))
            && Granted(HandleAll(db, Requests(connection, {}, p)), Table(connection, s, first))
            && Granted(HandleAll(db, Requests(connection, {}, p)), Table(connection, s, second))
               == Granted(db, Table(connection, s, second))
  {
    OneCellRequests(connection, s, first);
    OneCellIsAccepted(db, connection, first);
    OneCellAssigns(connection, s, first, first);
    OneCellAssigns(connection, s, first, second);
    var reqs := [ChangeTables(connection, "user", "u", [Change(first, true)])];
    HandleAllAssigns(db, reqs, Table(connection, s, first));
    HandleAllAssigns(db, reqs, Table(connection, s, second));
  }
}
