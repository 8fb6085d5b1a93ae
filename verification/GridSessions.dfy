/** Saves as people live through them: toggling on while one is in flight, and trying again. */
module GridSessions {
  import opened Results
  import opened Separators
  import opened Subjects
  import opened GrantApi
  import opened Staging
  import opened GridSave
  import opened StagedGrid
  import opened BrokenSaves

  // --- toggling while a save is in flight -------------------------------------------------------

  /** One call of `set`. */
  datatype Toggle = Toggle(cells: seq<(string, string)>, wanted: bool)

  function StageToggles(p: Pending, toggles: seq<Toggle>, saved: (string, string) -> bool): Pending
    decreases |toggles|
  {
    if toggles == [] then p
    else StageToggles(StageAll(p, toggles[0].cells, saved, toggles[0].wanted), toggles[1..], saved)
  }

  /** `saved` is what the grid of connection `c` reads from this state. */
  ghost predicate GridReads(db: Db, c: nat, saved: (string, string) -> bool) {
    forall s: Subject, col: string | Without(SEP, s.name) :: saved(Label(s), col) == Granted(db, CellAt(c, s, col))
  }

  ghost predicate GridToggles(toggles: seq<Toggle>) {
    forall t | t in toggles :: GridCells(t.cells)
  }

  lemma StageDiffers(db: Db, c: nat, p: Pending, saved: (string, string) -> bool, r: Subject, name: string,
                     wanted: bool)
    requires Distinct(p) && GridReads(db, c, saved) && DiffersFromSaved(db, c, p) && Without(SEP, r.name)
    ensures DiffersFromSaved(db, c, Stage(p, CellKey(Label(r), name), saved(Label(r), name), wanted))
  {
    var key := CellKey(Label(r), name);
    var q := Stage(p, key, saved(Label(r), name), wanted);
    forall s: Subject, col: string | Without(SEP, s.name)
      ensures Find(q, CellKey(Label(s), col)) != Some(Granted(db, CellAt(c, s, col)))
    {
      PutFinds(p, key, wanted, CellKey(Label(s), col));
      DeleteFinds(p, key, CellKey(Label(s), col));
      SplitCellKey(Label(s), col);
      SplitCellKey(Label(r), name);
      if CellKey(Label(s), col) == key {
        LabelIsUnique(s, r);
      }
    }
  }

  lemma {:induction false} StageAllDiffers(db: Db, c: nat, p: Pending, cells: seq<(string, string)>,
                                           saved: (string, string) -> bool, wanted: bool)
    requires OnGrid(p) && GridCells(cells) && GridReads(db, c, saved) && DiffersFromSaved(db, c, p)
    ensures DiffersFromSaved(db, c, StageAll(p, cells, saved, wanted))
    decreases |cells|
  {
    if cells != [] {
      var (row, col) := cells[0];
      var q := Stage(p, CellKey(row, col), saved(row, col), wanted);
      assert cells[0] in cells;
      var s: Subject :| IsCellOf(CellKey(row, col), s, col) && row == Label(s);
      StageDiffers(db, c, p, saved, s, col, wanted);
      assert StageAll(p, [cells[0]], saved, wanted) == q by { assert [cells[0]][1..] == []; }
      StageAllStaysOnGrid(p, [cells[0]], saved, wanted);
      StageAllDiffers(db, c, q, cells[1..], saved, wanted);
    }
  }

  lemma {:induction false} StageTogglesDiffers(db: Db, c: nat, p: Pending, toggles: seq<Toggle>,
                                               saved: (string, string) -> bool)
    requires OnGrid(p) && GridToggles(toggles) && GridReads(db, c, saved) && DiffersFromSaved(db, c, p)
    ensures OnGrid(StageToggles(p, toggles, saved)) && DiffersFromSaved(db, c, StageToggles(p, toggles, saved))
    decreases |toggles|
  {
    if toggles != [] {
      assert toggles[0] in toggles;
      StageAllStaysOnGrid(p, toggles[0].cells, saved, toggles[0].wanted);
      StageAllDiffers(db, c, p, toggles[0].cells, saved, toggles[0].wanted);
      StageTogglesDiffers(db, c, StageAll(p, toggles[0].cells, saved, toggles[0].wanted), toggles[1..], saved);
    }
  }

  /** A cell ends as the screen shows it when the save of `p` is over and `q` is staged, if and only if
      both want the same for it. */
  lemma CellIsKeptIff(before: Db, after: Db, c: nat, usable: set<string>, p: Pending, q: Pending, s: Subject,
                      col: string)
    requires OnGrid(p) && RowsOfSubjects(usable) && UsableIsCurrent(before, c, usable) && Without(SEP, s.name)
    requires DiffersFromSaved(before, c, p) && DiffersFromSaved(before, c, q)
    requires Sent(before, after, Requests(c, usable, p), |Requests(c, usable, p)|)
    ensures var cell, key := CellAt(c, s, col), CellKey(Label(s), col);
            Granted(after, cell) == Shown(c, q, cell, Granted(before, cell)) <==> Find(p, key) == Find(q, key)
  {
    SavedIsShown(before, after, c, usable, p, CellAt(c, s, col));
  }

  ghost predicate SamePending(p: Pending, q: Pending) {
    forall key :: Find(p, key) == Find(q, key)
  }

  lemma KeyIsKept(before: Db, after: Db, c: nat, usable: set<string>, p: Pending, q: Pending, key: string)
    requires OnGrid(p) && OnGrid(q) && RowsOfSubjects(usable) && UsableIsCurrent(before, c, usable)
    requires DiffersFromSaved(before, c, p) && DiffersFromSaved(before, c, q)
    requires Sent(before, after, Requests(c, usable, p), |Requests(c, usable, p)|) && AllShown(before, after, c, q)
    ensures Find(p, key) == Find(q, key)
  {
    if IsGridKey(key) {
      var s: Subject, col: string :| IsCellOf(key, s, col);
      CellIsKeptIff(before, after, c, usable, p, q, s, col);
    } else {
      OnlyGridKeysAreFound(p, key);
      OnlyGridKeysAreFound(q, key);
    }
  }

  /** Nothing that was staged is lost if and only if nothing was changed in what is staged since the
      save took hold of it. */
  lemma NothingIsLostIff(before: Db, after: Db, c: nat, usable: set<string>, p: Pending, q: Pending)
    requires OnGrid(p) && OnGrid(q) && RowsOfSubjects(usable) && UsableIsCurrent(before, c, usable)
    requires DiffersFromSaved(before, c, p) && DiffersFromSaved(before, c, q)
    requires Sent(before, after, Requests(c, usable, p), |Requests(c, usable, p)|)
    ensures AllShown(before, after, c, q) <==> SamePending(p, q)
  {
    if AllShown(before, after, c, q) {
      forall key ensures Find(p, key) == Find(q, key) {
        KeyIsKept(before, after, c, usable, p, q, key);
      }
    }
    if SamePending(p, q) {
      forall cell ensures Granted(after, cell) == Shown(c, q, cell, Granted(before, cell)) {
        SavedIsShown(before, after, c, usable, p, cell);
      }
    }
  }

  lemma OnlyGridKeysAreFound(p: Pending, key: string)
    requires OnGrid(p) && !IsGridKey(key)
    ensures Find(p, key).None?
  {
    FindIff(p, key);
  }

  /** A save during which cells go on being toggled. The save works on the map it was started with, so
      its requests and the toggles do not touch the same state. If it gets through, nothing is lost exactly
      when the toggles left the map as it was. If it fails, the map is kept with the toggles; but what was
      carried out is in effect, and a later save only sets it right exactly where it sets those cells. */
  method SaveWhileStaging(grid: Grid, api: AdminApi, connection: nat, usable: set<string>, deliveries: nat -> Delivery,
                          toggles: seq<Toggle>, saved: (string, string) -> bool)
    returns (ok: bool, ghost n: nat)
    requires api as object != grid
    modifies grid, api
    ensures Sent(old(api.Snapshot()), api.Snapshot(), Requests(connection, usable, old(grid.pending)), n)
    ensures ok <==> GetsThrough(old(api.Snapshot()), Requests(connection, usable, old(grid.pending)), deliveries, 0)
    ensures n == Carried(old(api.Snapshot()), Requests(connection, usable, old(grid.pending)), deliveries, 0)
    ensures grid.pending == if ok then [] else StageToggles(old(grid.pending), toggles, saved)
    ensures var before, p := old(api.Snapshot()), old(grid.pending);
            var q := StageToggles(p, toggles, saved);
            ok && OnGrid(p) && GridToggles(toggles) && RowsOfSubjects(usable)
            && UsableIsCurrent(before, connection, usable)
            && GridReads(before, connection, saved) && DiffersFromSaved(before, connection, p) ==>
              (AllShown(before, api.Snapshot(), connection, q) <==> SamePending(p, q))
    ensures var before, p := old(api.Snapshot()), old(grid.pending);
            var q := StageToggles(p, toggles, saved);
            !ok && OnGrid(p) && GridToggles(toggles) && RowsOfSubjects(usable)
            && UsableIsCurrent(before, connection, usable)
            && GridReads(before, connection, saved) && DiffersFromSaved(before, connection, p)
            && AllAccepted(api.Snapshot(), Requests(connection, usable, q)) ==>
              (AllShown(before, HandleAll(api.Snapshot(), Requests(connection, usable, q)), connection, q)
               <==> SetsAgain(connection, usable, p, n, q))
  {
    ghost var before := api.Snapshot();
    var captured := grid.BeginSave();
    ok, n := Write(api, connection, usable, captured, deliveries);
    for i := 0 to |toggles|
      invariant StageToggles(grid.pending, toggles[i..], saved) == StageToggles(captured, toggles, saved)
      invariant Sent(before, api.Snapshot(), Requests(connection, usable, captured), n)
    {
      grid.Set(toggles[i].cells, toggles[i].wanted, saved);
      assert toggles[i..][1..] == toggles[i + 1..];
    }
    ghost var q := grid.pending;
    grid.EndSave(captured, ok);
    if ok && OnGrid(captured) && GridToggles(toggles) && RowsOfSubjects(usable)
       && UsableIsCurrent(before, connection, usable)
       && GridReads(before, connection, saved) && DiffersFromSaved(before, connection, captured)
    {
      StageTogglesDiffers(before, connection, captured, toggles, saved);
      NothingIsLostIff(before, api.Snapshot(), connection, usable, captured, q);
    }
    if !ok && OnGrid(captured) && GridToggles(toggles) && RowsOfSubjects(usable)
       && UsableIsCurrent(before, connection, usable)
       && GridReads(before, connection, saved) && DiffersFromSaved(before, connection, captured)
       && AllAccepted(api.Snapshot(), Requests(connection, usable, q))
    {
      StageTogglesDiffers(before, connection, captured, toggles, saved);
      LaterSaveMendsIff(before, api.Snapshot(), connection, usable, captured, n, q);
    }
  }

  /** A cell that is toggled back while the request that grants it is in flight, and whose reply is lost:
      nothing is pending any more, the screen shows the cell as not granted, it is granted, and saving
      again changes nothing. */
  method ToggledBackStaysGranted(api: AdminApi, connection: nat, table: string)
    returns (ok: bool, again: bool, grid: Grid)
    requires connection in api.connections && table != USE && 1 <= |table| <= 300
    requires !Granted(api.Snapshot(), Table(connection, Subject(User, "u"), table))
    modifies api
    ensures !ok && again && grid.pending == []
    ensures Granted(api.Snapshot(), Table(connection, Subject(User, "u"), table))
    ensures !AllShown(old(api.Snapshot()), api.Snapshot(), connection, [])
  {
    grid := new Grid();
    var s := Subject(User, "u");
    var cell := (Label(s), table);
    var saved := (row: string, col: string) => false;
    ghost var db := api.Snapshot();
    ToggledAndBack(Label(s), table, saved);
    grid.Set([cell], true, saved);
    OneCellSent(db, connection, s, table);
    var toggles := [Toggle([cell], false)];
    ghost var n;
    ok, n := SaveWhileStaging(grid, api, connection, {}, i => ReplyLost, toggles, saved);
    assert Granted(api.Snapshot(), Table(connection, s, table));
    assert Granted(api.Snapshot(), Table(connection, s, table))
           != Shown(connection, [], Table(connection, s, table), Granted(db, Table(connection, s, table)));
    assert Requests(connection, {}, []) == [];
    again, n := grid.DoSave(api, connection, {}, i => Delivered);
  }

  lemma ToggledAndBack(row: string, col: string, saved: (string, string) -> bool)
    requires !saved(row, col)
    ensures StageAll([], [(row, col)], saved, true) == [(CellKey(row, col), true)]
    ensures StageToggles([(CellKey(row, col), true)], [Toggle([(row, col)], false)], saved) == []
  {
    var cells, p := [(row, col)], [(CellKey(row, col), true)];
    assert cells[1..] == [] && StageAll(p, cells, saved, false) == Delete(p, CellKey(row, col)) == [];
    var toggles := [Toggle(cells, false)];
    assert toggles[1..] == [] && StageToggles(p, toggles, saved) == StageToggles([], [], saved);
  }

  /** One cell is one request, which is carried out though its reply is lost. */
  lemma OneCellSent(db: Db, connection: nat, s: Subject, table: string)
    requires connection in db.connections && s == Subject(User, "u") && table != USE && 1 <= |table| <= 300
    ensures var reqs := Requests(connection, {}, [(CellKey(Label(s), table), true)]);
            && Carried(db, reqs, i => ReplyLost, 0) == 1 == |reqs| && !GetsThrough(db, reqs, i => ReplyLost, 0)
            && reqs[..1] == reqs && Granted(HandleAll(db, reqs), Table(connection, s, table))
  {
    OneCellRequests(connection, s, table);
    OneCellIsAccepted(db, connection, table);
    OneCellAssigns(connection, s, table, table);
    HandleAllAssigns(db, [ChangeTables(connection, "user", "u", [Change(table, true)])], Table(connection, s, table));
  }

  // --- trying again -------------------------------------------------------------------------------

  lemma {:induction false} AttemptsAppend(db: Db, reqs: seq<Request>, carried: seq<nat>, n: nat)
    requires n <= |reqs|
    ensures Attempts(db, reqs, carried + [n]) == HandleAll(Attempts(db, reqs, carried), reqs[..n])
    decreases |carried|
  {
    if carried == [] {
      assert [] + [n] == [n] && [n][1..] == [];
    } else {
      assert (carried + [n])[1..] == carried[1..] + [n];
      AttemptsAppend(HandleAll(db, reqs[..if carried[0] <= |reqs| then carried[0] else |reqs|]), reqs, carried[1..], n);
    }
  }

  /** Attempts do not change whether the requests are accepted. */
  lemma {:induction false} AttemptsAccept(db: Db, reqs: seq<Request>, carried: seq<nat>)
    requires forall r | r in reqs :: IsPut(r)
    ensures AllAccepted(Attempts(db, reqs, carried), reqs) <==> AllAccepted(db, reqs)
    decreases |carried|
  {
    if carried != [] {
      var mid := HandleAll(db, reqs[..if carried[0] <= |reqs| then carried[0] else |reqs|]);
      AcceptedIff(db, reqs[..if carried[0] <= |reqs| then carried[0] else |reqs|]);
      AcceptedIff(db, reqs);
      AcceptedIff(mid, reqs);
      AttemptsAccept(mid, reqs, carried[1..]);
    }
  }

  ghost predicate SameGrants(a: Db, b: Db) {
    forall cell :: Granted(a, cell) == Granted(b, cell)
  }

  /** What a try that gets through leaves, whatever the tries before it carried out. */
  lemma DoneAtLast(before: Db, reqs: seq<Request>, carried: seq<nat>, after: Db)
    requires forall r | r in reqs :: IsPut(r)
    requires Sent(Attempts(before, reqs, carried), after, reqs, |reqs|)
    ensures AllAccepted(before, reqs)
    ensures SameGrants(after, HandleAll(before, reqs))
  {
    assert reqs[..|reqs|] == reqs;
    AttemptsAccept(before, reqs, carried);
    forall cell ensures Granted(after, cell) == Granted(HandleAll(before, reqs), cell) {
      RetryConverges(before, reqs, carried, cell);
    }
  }

  lemma ShownAtLast(before: Db, after: Db, c: nat, usable: set<string>, p: Pending)
    requires OnGrid(p) && RowsOfSubjects(usable) && UsableIsCurrent(before, c, usable)
    requires AllAccepted(before, Requests(c, usable, p))
    requires SameGrants(after, HandleAll(before, Requests(c, usable, p)))
    ensures AllShown(before, after, c, p)
  {
    forall cell ensures Granted(after, cell) == Shown(c, p, cell, Granted(before, cell)) {
      SaveDoesWhatTheScreenShowed(before, c, usable, p, cell);
    }
  }

  /** The changes could be saved, every grant is as one undisturbed save leaves it, and if the grid was
      up to date it is as the screen showed it. */
  ghost predicate Saved(before: Db, after: Db, c: nat, usable: set<string>, p: Pending) {
    && AllAccepted(before, Requests(c, usable, p))
    && SameGrants(after, HandleAll(before, Requests(c, usable, p)))
    && (OnGrid(p) && RowsOfSubjects(usable) && UsableIsCurrent(before, c, usable) ==> AllShown(before, after, c, p))
  }

  /** One of several tries: `carried` tells of the ones before it, and then of this one as well. */
  method TryOnce(grid: Grid, api: AdminApi, connection: nat, usable: set<string>, deliveries: nat -> Delivery,
                 ghost reqs: seq<Request>, ghost before: Db, ghost carried: seq<nat>)
    returns (ok: bool, ghost next: seq<nat>)
    requires api as object != grid
    requires reqs == Requests(connection, usable, grid.pending)
    requires api.Snapshot() == Attempts(before, reqs, carried)
    modifies grid, api
    ensures grid.pending == if ok then [] else old(grid.pending)
    ensures ok ==> Saved(before, api.Snapshot(), connection, usable, old(grid.pending))
    ensures !ok ==> api.Snapshot() == Attempts(before, reqs, next)
    ensures Undisturbed(deliveries) && AllAccepted(before, reqs) ==> ok
  {
    ghost var p := grid.pending;
    RequestsArePuts(connection, usable, p);
    AttemptsAccept(before, reqs, carried);
    GetsThroughIff(api.Snapshot(), reqs, deliveries, 0);
    ghost var n;
    ok, n := grid.DoSave(api, connection, usable, deliveries);
    if ok {
      DoneAtLast(before, reqs, carried, api.Snapshot());
      if OnGrid(p) && RowsOfSubjects(usable) && UsableIsCurrent(before, connection, usable) {
        ShownAtLast(before, api.Snapshot(), connection, usable, p);
      }
    } else {
      AttemptsAppend(before, reqs, carried, n);
    }
    next := carried + [n];
  }

  /** Saving again and again, each time with other losses, until a save gets through. Until then nothing
      staged is forgotten. One attempt without losses is enough, unless the changes cannot be saved at all. */
  method SaveUntilDone(grid: Grid, api: AdminApi, connection: nat, usable: set<string>, tries: seq<nat -> Delivery>)
    returns (ok: bool)
    requires api as object != grid
    modifies grid, api
    ensures grid.pending == if ok then [] else old(grid.pending)
    ensures ok ==> Saved(old(api.Snapshot()), api.Snapshot(), connection, usable, old(grid.pending))
    ensures !ok ==> NoneGotThrough(old(api.Snapshot()), Requests(connection, usable, old(grid.pending)), tries)
  {
    ghost var before, p, carried := api.Snapshot(), grid.pending, [];
    ghost var reqs := Requests(connection, usable, p);
    ok := false;
    for i := 0 to |tries|
      invariant grid.pending == p && api.Snapshot() == Attempts(before, reqs, carried)
      invariant NoneGotThrough(before, reqs, tries[..i])
    {
      ok, carried := TryOnce(grid, api, connection, usable, tries[i], reqs, before, carried);
      if ok {
        return;
      }
      assert tries[..i + 1] == tries[..i] + [tries[i]];
    }
    assert tries[..|tries|] == tries;
  }

  /** The changes cannot be saved, or something was lost in every try. */
  ghost predicate NoneGotThrough(before: Db, reqs: seq<Request>, tries: seq<nat -> Delivery>) {
    AllAccepted(before, reqs) ==> forall i | 0 <= i < |tries| :: !Undisturbed(tries[i])
  }

  ghost predicate Undisturbed(deliveries: nat -> Delivery) {
    forall i :: deliveries(i).Delivered?
  }
}
