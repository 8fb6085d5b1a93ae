/** The registry of open adapters as a ledger: what was opened is either in use or closed, once. */
module ConnectionRegistry {
  import opened Results

  /** A connection's stored settings, as far as the registry compares them. */
  datatype Record = Record(id: nat, updatedAt: nat)

  datatype Error = ConnectionUnavailable | CloseFailed

  /** The adapter kept for a connection was built from this very edit of it, or from another one. */
  predicate Fits(adapters: map<nat, (nat, nat)>, record: Record) {
    record.id in adapters && adapters[record.id].0 == record.updatedAt
  }

  predicate Outdated(adapters: map<nat, (nat, nat)>, record: Record) {
    record.id in adapters && adapters[record.id].0 != record.updatedAt
  }

  class Registry {
    /** By connection: the `updatedAt` of the record it was built from, and the adapter. */
    var adapters: map<nat, (nat, nat)>

    /** The ledger: every adapter that was opened, with its record, and every successful close. */
    ghost var ledger: map<nat, Record>
    ghost var closings: multiset<nat>

    ghost predicate Valid()
      reads this
    {
      && (forall id | id in adapters ::
            adapters[id].1 in ledger && ledger[adapters[id].1] == Record(id, adapters[id].0))
      && (forall a | a in ledger :: closings[a] == if InUse(a) then 0 else 1)
      && (forall a | a in closings :: a in ledger)
    }

    ghost predicate InUse(a: nat)
      reads this
    {
      exists id | id in adapters :: adapters[id].1 == a
    }

    constructor ()
      ensures Valid() && adapters == map[] && ledger == map[] && closings == multiset{}
    {
      adapters := map[];
      ledger, closings := map[], multiset{};
    }

    /** `candidate` is the adapter that opening makes, if it works. The lock is held throughout, so calls
        do not overlap. */
    method AdapterFor(record: Record, candidate: nat, opens: bool, closes: bool) returns (r: Result<nat, Error>)
      requires Valid() && candidate !in ledger
      modifies this
      ensures Valid()
      // The adapter handed out is open and was built from settings of this very edit.
      ensures r.Ok? ==>
                && InUse(r.value) && ledger[r.value] == record
                && adapters[record.id] == (record.updatedAt, r.value)
      // Nobody else's adapter is touched.
      ensures forall id | id != record.id ::
                (id in adapters <==> id in old(adapters)) && (id in adapters ==> adapters[id] == old(adapters[id]))
      // One that fits is reused; nothing is opened or closed for it.
      ensures Fits(old(adapters), record) ==>
                r == Ok(old(adapters)[record.id].1) && adapters == old(adapters) && ledger == old(ledger)
                && closings == old(closings)
      // One that does not is closed before its successor is opened, and kept if that fails.
      ensures Outdated(old(adapters), record) && !closes ==>
                r == Err(CloseFailed) && adapters == old(adapters) && ledger == old(ledger) && closings == old(closings)
      ensures Outdated(old(adapters), record) && closes ==>
                closings == old(closings) + multiset{old(adapters)[record.id].1}
      ensures record.id !in old(adapters) ==> closings == old(closings)
      // Then a new one is opened, or the connection is left with none.
      ensures !Fits(old(adapters), record) && (Outdated(old(adapters), record) ==> closes) ==>
                if opens then r == Ok(candidate) && ledger == old(ledger)[candidate := record]
                else r == Err(ConnectionUnavailable) && record.id !in adapters && ledger == old(ledger)
    {
      if record.id in adapters {
        var (version, adapter) := adapters[record.id];
        if version == record.updatedAt {
          return Ok(adapter);
        }
        if !closes {
          return Err(CloseFailed);
        }
        Retire(record.id);
      }
      if !opens {
        return Err(ConnectionUnavailable);
      }
      Adopt(record, candidate);
      return Ok(candidate);
    }

    /** Keep a newly opened adapter for a connection that has none. */
    method Adopt(record: Record, candidate: nat)
      requires Valid() && record.id !in adapters && candidate !in ledger
      modifies this
      ensures Valid() && adapters == old(adapters)[record.id := (record.updatedAt, candidate)]
      ensures ledger == old(ledger)[candidate := record] && closings == old(closings)
    {
      ghost var before := adapters;
      adapters := adapters[record.id := (record.updatedAt, candidate)];
      ledger := ledger[candidate := record];
      forall a | a in ledger ensures closings[a] == if InUse(a) then 0 else 1 {
        if a == candidate {
          assert adapters[record.id].1 == a;
        } else if exists id | id in before :: before[id].1 == a {
          var id :| id in before && before[id].1 == a;
          assert adapters[id].1 == a;
        }
      }
    }

    /** Close the old adapter of an edited connection and forget it. */
    method Retire(id: nat)
      requires Valid() && id in adapters
      modifies this
      ensures Valid() && adapters == old(adapters) - {id} && ledger == old(ledger)
      ensures closings == old(closings) + multiset{old(adapters)[id].1}
    {
      var a := adapters[id].1;
      assert InUse(a);
      ghost var before := adapters;
      closings := closings + multiset{a};
      adapters := adapters - {id};
      forall b | b in ledger ensures closings[b] == if InUse(b) then 0 else 1 {
        if b != a && exists other | other in before :: before[other].1 == b {
          var other :| other in before && before[other].1 == b;
          assert adapters[other].1 == b;
        }
      }
    }

    /** The ledger while the adapters of `left` are still open and the others are closed. */
    ghost predicate Closing(left: set<nat>)
      reads this
    {
      && left <= adapters.Keys
      && (forall a | a in ledger :: closings[a] == if OpenAmong(left, a) then 0 else 1)
      && (forall a | a in closings :: a in ledger)
    }

    ghost predicate OpenAmong(left: set<nat>, a: nat)
      requires left <= adapters.Keys
      reads this
    {
      exists id | id in left :: adapters[id].1 == a
    }

    lemma OpenWithout(left: set<nat>, id: nat, a: nat)
      requires Distinct() && left <= adapters.Keys && id in left
      ensures OpenAmong(left - {id}, a) <==> OpenAmong(left, a) && a != adapters[id].1
    {
      if OpenAmong(left, a) && a != adapters[id].1 {
        var other :| other in left && adapters[other].1 == a;
        assert other in left - {id};
      }
    }

    /** No two connections share an adapter. */
    ghost predicate Distinct()
      reads this
    {
      forall x, y | x in adapters && y in adapters && adapters[x].1 == adapters[y].1 :: x == y
    }

    method CloseOne(id: nat, ghost left: set<nat>)
      requires Distinct() && Closing(left) && id in left && adapters[id].1 in ledger
      modifies this`closings
      ensures Closing(left - {id})
    {
      ghost var a := adapters[id].1;
      assert OpenAmong(left, a);
      forall b ensures OpenAmong(left - {id}, b) <==> OpenAmong(left, b) && b != a { OpenWithout(left, id, b); }
      closings := closings + multiset{a};
    }

    /** Closes everything. If a close fails, the rest stay open and nothing is forgotten. */
    method Close(closes: nat -> bool) returns (ok: bool)
      requires Valid()
      modifies this
      ensures ledger == old(ledger)
      ensures ok <==> forall id | id in old(adapters) :: closes(old(adapters)[id].1)
      ensures ok ==> Valid() && adapters == map[] && forall a | a in ledger :: closings[a] == 1
      ensures !ok ==> adapters == old(adapters)
    {
      assert Distinct();
      var todo := adapters.Keys;
      assert forall a :: OpenAmong(todo, a) <==> InUse(a);
      while todo != {}
        invariant adapters == old(adapters) && ledger == old(ledger) && Distinct() && Closing(todo)
        invariant forall id | id in adapters :: adapters[id].1 in ledger
        invariant todo <= adapters.Keys && forall id | id in adapters.Keys - todo :: closes(adapters[id].1)
        decreases todo
      {
        var id :| id in todo;
        var a := adapters[id].1;
        if !closes(a) {
          return false;
        }
        CloseOne(id, todo);
        todo := todo - {id};
      }
      adapters := map[];
      return true;
    }
  }
}
