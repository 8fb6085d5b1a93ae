/** Staged permission changes: what the person wants, kept apart from what is saved. */
module Staging {
  import opened Results
  import opened Separators
  import opened GrantApi

  const SEP := '\0'

  function CellKey(row: string, col: string): string {
    row + [SEP] + col
  }

  function SplitCell(key: string): (string, string) {
    SplitAt(key, SEP)
  }

  lemma SplitCellKey(row: string, col: string)
    requires Without(SEP, row)
    ensures SplitCell(CellKey(row, col)) == (row, col)
  {
    SplitJoined(SEP, row, col);
  }

  /** A key can be split again exactly when its row has no separator in it. */
  lemma SplitCellKeyIff(row: string, col: string)
    ensures SplitCell(CellKey(row, col)) == (row, col) <==> Without(SEP, row)
  {
    if Without(SEP, row) {
      SplitCellKey(row, col);
    } else {
      JoinSplit(CellKey(row, col), SEP);
    }
  }

  // --- the pending map, in insertion order ----------------------------------------------------

  type Pending = seq<(string, bool)>

  function Find(p: Pending, key: string): Option<bool> {
    if p == [] then None
    else if p[0].0 == key then Some(p[0].1)
    else Find(p[1..], key)
  }

  function Put(p: Pending, key: string, value: bool): Pending {
    if p == [] then [(key, value)]
    else if p[0].0 == key then [(key, value)] + p[1..]
    else [p[0]] + Put(p[1..], key, value)
  }

  function Delete(p: Pending, key: string): Pending {
    if p == [] then []
    else if p[0].0 == key then p[1..]
    else [p[0]] + Delete(p[1..], key)
  }

  ghost predicate Distinct(p: Pending) {
    forall i, j | 0 <= i < j < |p| :: p[i].0 != p[j].0
  }

  /** Ask for a cell to have `wanted`, given what is saved. */
  function Stage(p: Pending, key: string, saved: bool, wanted: bool): Pending {
    if wanted == saved then Delete(p, key) else Put(p, key, wanted)
  }

  function Effective(p: Pending, key: string, saved: bool): bool {
    Or(Find(p, key), saved)
  }

  lemma {:induction false} FindIff(p: Pending, key: string)
    ensures Find(p, key).Some? ==> (key, Find(p, key).value) in p
    ensures Distinct(p) ==> forall v :: (key, v) in p ==> Find(p, key) == Some(v)
    ensures Find(p, key).None? ==> forall i | 0 <= i < |p| :: p[i].0 != key
  {
    if p != [] {
      assert p == [p[0]] + p[1..];
      if Distinct(p) {
        assert Distinct(p[1..]);
        assert forall i | 0 <= i < |p[1..]| :: p[1..][i] == p[i + 1];
      }
      if p[0].0 != key {
        FindIff(p[1..], key);
      }
    }
  }

  lemma {:induction false} PutFinds(p: Pending, key: string, value: bool, k: string)
    ensures Find(Put(p, key, value), k) == if k == key then Some(value) else Find(p, k)
    ensures forall x | x in Put(p, key, value) :: x == (key, value) || x in p
    ensures Distinct(p) ==> Distinct(Put(p, key, value))
  {
    if p != [] && p[0].0 != key {
      PutFinds(p[1..], key, value, k);
      var q := Put(p[1..], key, value);
      if Distinct(p) {
        assert Distinct(p[1..]);
        forall i | 0 <= i < |q| ensures q[i].0 != p[0].0 {
          if q[i] in p[1..] {
            var j :| 0 <= j < |p[1..]| && p[1..][j] == q[i];
            assert p[j + 1] == q[i];
          } else {
            assert q[i] in q;
          }
        }
      }
    }
  }

  lemma {:induction false} DeleteFinds(p: Pending, key: string, k: string)
    requires Distinct(p)
    ensures Find(Delete(p, key), k) == if k == key then None else Find(p, k)
    ensures forall x | x in Delete(p, key) :: x in p
    ensures Distinct(Delete(p, key))
  {
    if p != [] {
      assert Distinct(p[1..]);
      assert forall i | 0 <= i < |p[1..]| :: p[1..][i] == p[i + 1];
      if p[0].0 == key {
        FindIff(p[1..], key);
      } else {
        DeleteFinds(p[1..], key, k);
        var q := Delete(p[1..], key);
        forall i | 0 <= i < |q| ensures q[i].0 != p[0].0 {
          assert q[i] in q;
          var j :| 0 <= j < |p[1..]| && p[1..][j] == q[i];
          assert p[j + 1] == q[i];
        }
      }
    }
  }

  /** Staging a cell changes how that cell reads and no other. */
  lemma StageSets(p: Pending, key: string, saved: bool, wanted: bool, k: string, savedK: bool)
    requires Distinct(p) && (k == key ==> savedK == saved)
    ensures Distinct(Stage(p, key, saved, wanted))
    ensures Effective(Stage(p, key, saved, wanted), k, savedK) == if k == key then wanted else Effective(p, k, savedK)
  {
    PutFinds(p, key, wanted, k);
    DeleteFinds(p, key, k);
  }

  /** The map only ever holds wanted values that differ from what is saved. */
  ghost predicate OnlyChanges(p: Pending, saved: string -> bool) {
    forall i | 0 <= i < |p| :: p[i].1 != saved(p[i].0)
  }

  lemma StageKeepsOnlyChanges(p: Pending, key: string, saved: string -> bool, wanted: bool)
    requires Distinct(p) && OnlyChanges(p, saved)
    ensures OnlyChanges(Stage(p, key, saved(key), wanted), saved)
  {
    var q := Stage(p, key, saved(key), wanted);
    PutFinds(p, key, wanted, key);
    DeleteFinds(p, key, key);
    forall i | 0 <= i < |q| ensures q[i].1 != saved(q[i].0) {
      assert q[i] in q;
      if q[i] in p {
        var j :| 0 <= j < |p| && p[j] == q[i];
      }
    }
  }

  // --- grouping by row ------------------------------------------------------------------------

  /** Rows in the order they first appear, each with its changes in order. */
  type Groups = seq<(string, seq<Change>)>

  function Push(groups: Groups, row: string, change: Change): Groups {
    if groups == [] then [(row, [change])]
    else if groups[0].0 == row then [(row, groups[0].1 + [change])] + groups[1..]
    else [groups[0]] + Push(groups[1..], row, change)
  }

  function Grouped(p: Pending): Groups {
    if p == [] then []
    else
      var (row, col) := SplitCell(p[|p| - 1].0);
      Push(Grouped(p[..|p| - 1]), row, Change(col, p[|p| - 1].1))
  }

  method GroupByRow(p: Pending) returns (groups: Groups)
    ensures groups == Grouped(p)
  {
    groups := [];
    for i := 0 to |p|
      invariant groups == Grouped(p[..i])
    {
      var (row, col) := SplitCell(p[i].0);
      groups := Push(groups, row, Change(col, p[i].1));
      assert p[..i + 1][..i] == p[..i];
    }
    assert p[..|p|] == p;
  }

  /** The changes staged for one row, in order. */
  function RowChanges(p: Pending, row: string): seq<Change> {
    if p == [] then []
    else
      var (r, col) := SplitCell(p[|p| - 1].0);
      RowChanges(p[..|p| - 1], row) + if r == row then [Change(col, p[|p| - 1].1)] else []
  }

  function GroupOf(groups: Groups, row: string): seq<Change> {
    if groups == [] then []
    else if groups[0].0 == row then groups[0].1
    else GroupOf(groups[1..], row)
  }

  ghost predicate WellGrouped(groups: Groups) {
    && (forall i, j | 0 <= i < j < |groups| :: groups[i].0 != groups[j].0)
    && (forall i | 0 <= i < |groups| :: groups[i].1 != [])
  }

  lemma {:induction false} PushGroups(groups: Groups, row: string, change: Change, r: string)
    requires WellGrouped(groups)
    ensures WellGrouped(Push(groups, row, change))
    ensures GroupOf(Push(groups, row, change), r) == GroupOf(groups, r) + if r == row then [change] else []
    ensures forall g | g in Push(groups, row, change) :: g.0 == row || g in groups
  {
    if groups != [] && groups[0].0 != row {
      assert forall i | 0 <= i < |groups[1..]| :: groups[1..][i] == groups[i + 1];
      PushGroups(groups[1..], row, change, r);
      var q := Push(groups[1..], row, change);
      forall i | 0 <= i < |q| ensures q[i].0 != groups[0].0 {
        assert q[i] in q;
        if q[i] in groups[1..] {
          var j :| 0 <= j < |groups[1..]| && groups[1..][j] == q[i];
        }
      }
    }
  }

  /** Every row appears once, with exactly its own changes. */
  lemma {:induction false} GroupedIs(p: Pending, row: string)
    ensures WellGrouped(Grouped(p)) && GroupOf(Grouped(p), row) == RowChanges(p, row)
    decreases |p|
  {
    if p != [] {
      var (r, col) := SplitCell(p[|p| - 1].0);
      GroupedIs(p[..|p| - 1], row);
      PushGroups(Grouped(p[..|p| - 1]), r, Change(col, p[|p| - 1].1), row);
    }
  }

  lemma {:induction false} GroupAt(groups: Groups, i: nat)
    requires WellGrouped(groups) && i < |groups|
    ensures GroupOf(groups, groups[i].0) == groups[i].1
  {
    if i > 0 {
      assert forall j | 0 <= j < |groups[1..]| :: groups[1..][j] == groups[j + 1];
      GroupAt(groups[1..], i - 1);
      assert groups[0].0 != groups[i].0;
    }
  }

  lemma {:induction false} GroupExists(groups: Groups, row: string) returns (i: nat)
    requires GroupOf(groups, row) != []
    ensures i < |groups| && groups[i].0 == row
  {
    if groups[0].0 == row {
      i := 0;
    } else {
      i := GroupExists(groups[1..], row);
      i := i + 1;
    }
  }

  lemma {:induction false} RowChangesIff(p: Pending, row: string, c: Change)
    ensures c in RowChanges(p, row) <==>
              exists i :: 0 <= i < |p| && SplitCell(p[i].0) == (row, c.name) && p[i].1 == c.granted
    decreases |p|
  {
    if p != [] {
      var n := |p| - 1;
      RowChangesIff(p[..n], row, c);
      assert forall i | 0 <= i < n :: p[..n][i] == p[i];
      var (r, col) := SplitCell(p[n].0);
      assert p == p[..n] + [p[n]];
      if c in RowChanges(p[..n], row) {
        var i :| 0 <= i < n && SplitCell(p[..n][i].0) == (row, c.name) && p[..n][i].1 == c.granted;
        assert SplitCell(p[i].0) == (row, c.name) && p[i].1 == c.granted;
      }
      if i :| 0 <= i < |p| && SplitCell(p[i].0) == (row, c.name) && p[i].1 == c.granted {
        if i < n {
          assert SplitCell(p[..n][i].0) == (row, c.name) && p[..n][i].1 == c.granted;
        }
      }
    }
  }
}
