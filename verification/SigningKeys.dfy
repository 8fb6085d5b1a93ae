/** The signing keys of the token verifier, under every interleaving of requests: each request is a
    program that can be paused at its two awaits, waiting for the lock and waiting for the provider. */
module SigningKeys {
  import opened Results

  const MIN_REFETCH_INTERVAL := 30.0
  const MAX_AGE := 600.0

  // --- one verifier ---------------------------------------------------------------------------

  /** An entry of the published key set; `key` is None when the library cannot use it. */
  datatype Jwk = Jwk(use: Option<string>, kid: Option<string>, key: Option<string>)

  predicate Usable(jwk: Jwk) {
    (jwk.use == None || jwk.use == Some("sig")) && jwk.kid.Some? && jwk.key.Some?
  }

  /** The dictionary that a response fills: for each id, its last usable entry. */
  function KeySet(response: seq<Jwk>): map<string, string> {
    if response == [] then map[]
    else
      var last := response[|response| - 1];
      var before := KeySet(response[..|response| - 1]);
      if Usable(last) then before[last.kid.value := last.key.value] else before
  }

  lemma {:induction false} KeySetIs(response: seq<Jwk>, kid: string)
    ensures kid in KeySet(response) <==>
              exists i :: 0 <= i < |response| && Usable(response[i]) && response[i].kid == Some(kid)
    ensures kid in KeySet(response) ==>
              exists i :: 0 <= i < |response| && Usable(response[i])
                          && response[i] == Jwk(response[i].use, Some(kid), Some(KeySet(response)[kid]))
                          && forall j | i < j < |response| :: !(Usable(response[j]) && response[j].kid == Some(kid))
    decreases |response|
  {
    if response != [] {
      var n := |response| - 1;
      var before, last := response[..n], response[n];
      KeySetIs(before, kid);
      assert forall i | 0 <= i < n :: before[i] == response[i];
      if Usable(last) && last.kid == Some(kid) {
        assert last == Jwk(last.use, Some(kid), Some(KeySet(response)[kid]));
      } else if kid in KeySet(before) {
        var i :| 0 <= i < n && Usable(before[i])
                 && before[i] == Jwk(before[i].use, Some(kid), Some(KeySet(before)[kid]))
                 && forall j | i < j < n :: !(Usable(before[j]) && before[j].kid == Some(kid));
        assert response[i] == Jwk(response[i].use, Some(kid), Some(KeySet(response)[kid]));
      }
    }
  }

  /** The same with usable entries spelled out: for signing or for anything, with an id and a key. */
  lemma KeySetSpelled(response: seq<Jwk>, kid: string)
    ensures forall i, key |
              && 0 <= i < |response| && (response[i].use == None || response[i].use == Some("sig"))
              && response[i].kid == Some(kid) && response[i].key == Some(key)
              && (forall j | i < j < |response| ::
                    !((response[j].use == None || response[j].use == Some("sig"))
                      && response[j].kid == Some(kid) && response[j].key.Some?)) ::
              kid in KeySet(response) && KeySet(response)[kid] == key
    ensures (forall i | 0 <= i < |response| ::
               !((response[i].use == None || response[i].use == Some("sig"))
                 && response[i].kid == Some(kid) && response[i].key.Some?))
            <==> kid !in KeySet(response)
  {
    KeySetIs(response, kid);
    forall i, key |
      && 0 <= i < |response| && (response[i].use == None || response[i].use == Some("sig"))
      && response[i].kid == Some(kid) && response[i].key == Some(key)
      && (forall j | i < j < |response| ::
            !((response[j].use == None || response[j].use == Some("sig"))
              && response[j].kid == Some(kid) && response[j].key.Some?))
      ensures kid in KeySet(response) && KeySet(response)[kid] == key
    {
      LastUsable(response, kid, i);
    }
  }

  lemma LastUsable(response: seq<Jwk>, kid: string, i: nat)
    requires i < |response| && Usable(response[i]) && response[i].kid == Some(kid)
    requires forall j | i < j < |response| :: !(Usable(response[j]) && response[j].kid == Some(kid))
    ensures kid in KeySet(response) && response[i].key == Some(KeySet(response)[kid])
  {
    KeySetIs(response, kid);
    var k :| 0 <= k < |response| && Usable(response[k])
             && response[k] == Jwk(response[k].use, Some(kid), Some(KeySet(response)[kid]))
             && forall j | k < j < |response| :: !(Usable(response[j]) && response[j].kid == Some(kid));
    assert k == i;
  }

  datatype Keys = Keys(byId: map<string, string>, fetchedAt: real)

  /** What a request does before it waits for the lock, and once it has it. */
  datatype Decision = Answer(key: Option<string>) | WaitForLock | Refresh

  function Find(keys: Keys, kid: string): Option<string> {
    if kid in keys.byId then Some(keys.byId[kid]) else None
  }

  function BeforeLock(keys: Keys, kid: Option<string>, now: real): Decision {
    if kid == None then Answer(None)
    else if kid.value in keys.byId && !(now - keys.fetchedAt > MAX_AGE) then Answer(Find(keys, kid.value))
    else WaitForLock
  }

  function UnderLock(keys: Keys, kid: string, now: real): Decision {
    if kid in keys.byId && now - keys.fetchedAt <= MAX_AGE then Answer(Find(keys, kid))
    else if !(now - keys.fetchedAt < MIN_REFETCH_INTERVAL) || keys.byId == map[] then Refresh
    else Answer(Find(keys, kid))
  }

  class JwtTokenVerifier {
    var keys: map<string, string>
    var fetchedAt: real

    function Held(): Keys
      reads this
    {
      Keys(keys, fetchedAt)
    }

    constructor ()
      ensures Held() == Keys(map[], 0.0)
    {
      keys, fetchedAt := map[], 0.0;
    }

    /** `response` is what the provider sent, or None if the request failed; then nothing changes. */
    method RefreshKeys(response: Option<seq<Jwk>>, now: real) returns (ok: bool)
      modifies this
      ensures ok <==> response.Some?
      ensures Held() == if response.Some? then Keys(KeySet(response.value), now) else old(Held())
    {
      if response.None? {
        return false;
      }
      var jwks := response.value;
      var found: map<string, string> := map[];
      for i := 0 to |jwks|
        invariant found == KeySet(jwks[..i])
      {
        var jwk := jwks[i];
        assert jwks[..i + 1][..i] == jwks[..i];
        if (jwk.use == None || jwk.use == Some("sig")) && jwk.kid.Some? {
          if jwk.key.Some? {
            found := found[jwk.kid.value := jwk.key.value];
          }
        }
      }
      assert jwks[..|jwks|] == jwks;
      keys := found;
      fetchedAt := now;
      return true;
    }

    /** `_key_for` with nobody in between; the clock reads `t0`, `t1` under the lock, `t2` at the end. */
    method KeyFor(kid: Option<string>, response: Option<seq<Jwk>>, t0: real, t1: real, t2: real)
      returns (key: Option<string>)
      modifies this
      ensures match BeforeLock(old(Held()), kid, t0)
              case Answer(k) => key == k && Held() == old(Held())
              case _ =>
                match UnderLock(old(Held()), kid.value, t1) {
                  case Answer(k) => key == k && Held() == old(Held())
                  case _ =>
                    if response.None? then key == None && Held() == old(Held())
                    else Held() == Keys(KeySet(response.value), t2) && key == Find(Held(), kid.value)
                }
      // A token without a key id gets none, and one whose key is held and fresh gets that key at once.
      ensures kid == None ==> key == None && unchanged(`keys) && unchanged(`fetchedAt)
      ensures kid.Some? && kid.value in old(keys)
              && (t0 - old(fetchedAt) <= 600.0 || t1 - old(fetchedAt) <= 600.0)
              ==> key == Some(old(keys)[kid.value]) && unchanged(`keys) && unchanged(`fetchedAt)
      // Others ask the provider, unless it was asked less than half a minute ago and there are keys.
      ensures kid.Some?
              && !(kid.value in old(keys) && (t0 - old(fetchedAt) <= 600.0 || t1 - old(fetchedAt) <= 600.0)) ==>
                if response.None? || (old(keys) != map[] && t1 - old(fetchedAt) < 30.0)
                then key == None && unchanged(`keys) && unchanged(`fetchedAt)
                else
                  && fetchedAt == t2
                  && key == (if kid.value in keys then Some(keys[kid.value]) else None)
                  && (key == None <==> forall i | 0 <= i < |response.value| ::
                        !((response.value[i].use == None || response.value[i].use == Some("sig"))
                          && response.value[i].kid == kid && response.value[i].key.Some?))
                  && (forall i, v |
                        && 0 <= i < |response.value|
                        && (response.value[i].use == None || response.value[i].use == Some("sig"))
                        && response.value[i].kid == kid && response.value[i].key == Some(v)
                        && (forall j | i < j < |response.value| ::
                              !((response.value[j].use == None || response.value[j].use == Some("sig"))
                                && response.value[j].kid == kid && response.value[j].key.Some?)) ::
                        key == Some(v))
    {
      if kid == None {
        return None;
      }
      var stale := t0 - fetchedAt > MAX_AGE;
      if kid.value in keys && !stale {
        return Some(keys[kid.value]);
      }
      if kid.value in keys && t1 - fetchedAt <= MAX_AGE {
        return Some(keys[kid.value]);
      }
      var recently := t1 - fetchedAt < MIN_REFETCH_INTERVAL;
      if !recently || keys == map[] {
        var ok := RefreshKeys(response, t2);
        if !ok {
          return None;
        }
        KeySetSpelled(response.value, kid.value);
      }
      return Find(Held(), kid.value);
    }
  }

  // --- many requests at once ------------------------------------------------------------------

  datatype Phase =
    | Waiting
    | Fetching
    | Done(key: Option<string>, decidedAt: real, from: Keys)

  datatype Request = Request(kid: string, phase: Phase)

  /** A refresh that succeeded: what it brought, and when. */
  datatype Fetch = Fetch(startedAt: real, endedAt: real, byId: map<string, string>)

  /** `current` is when the refresh under way started, `fetches` are the refreshes that succeeded, and
      `starts` tells of every refresh when it started and what was held then; no step looks at them. */
  datatype State = State(
    now: real,
    keys: Keys,
    lock: Option<nat>,
    requests: map<nat, Request>,
    current: Option<real>,
    fetches: seq<Fetch>,
    starts: seq<(real, Keys)>)

  datatype Step =
    | Tick(to: real)
    | Begin(id: nat, kid: string)
    | Acquire(id: nat)
    | FetchEnds(id: nat, response: Option<seq<Jwk>>)

  /** The clock may start anywhere after the epoch at which `fetchedAt` is set. */
  ghost predicate Initial(s: State) {
    s.now >= 0.0 && s == State(s.now, Keys(map[], 0.0), None, map[], None, [], [])
  }

  predicate Enabled(s: State, step: Step) {
    match step
    case Tick(to) => s.now <= to
    case Begin(id, _) => id !in s.requests
    case Acquire(id) => id in s.requests && s.requests[id].phase.Waiting? && s.lock == None
    case FetchEnds(id, _) => id in s.requests && s.requests[id].phase.Fetching?
  }

  function Move(s: State, id: nat, phase: Phase): State
    requires id in s.requests
  {
    s.(requests := s.requests[id := s.requests[id].(phase := phase)])
  }

  function Apply(s: State, step: Step): State
    requires Enabled(s, step)
  {
    match step
    case Tick(to) => s.(now := to)
    case Begin(id, kid) =>
      var phase := match BeforeLock(s.keys, Some(kid), s.now)
                   case Answer(key) => Done(key, s.now, s.keys)
                   case _ => Waiting;
      s.(requests := s.requests[id := Request(kid, phase)])
    case Acquire(id) =>
      (match UnderLock(s.keys, s.requests[id].kid, s.now)
       case Answer(key) => Move(s, id, Done(key, s.now, s.keys))
       case _ =>
         Move(s, id, Fetching).(
           lock := Some(id), current := Some(s.now), starts := s.starts + [(s.now, s.keys)]))
    case FetchEnds(id, response) =>
      var done := if response.Some? then Keys(KeySet(response.value), s.now) else s.keys;
      var key := if response.Some? then Find(done, s.requests[id].kid) else None;
      Move(s, id, Done(key, s.now, done)).(
        lock := None,
        keys := done,
        current := None,
        fetches := if response.Some? && s.current.Some?
                   then s.fetches + [Fetch(s.current.value, s.now, done.byId)]
                   else s.fetches)
  }

  // --- what each step decides -----------------------------------------------------------------

  /** A request whose key is held and at most ten minutes old has it at once; any other one waits. */
  lemma BeginDecides(s: State, id: nat, kid: string)
    requires id !in s.requests
    ensures Apply(s, Begin(id, kid)) ==
            s.(requests := s.requests[id := Request(kid,
              if kid in s.keys.byId && s.now - s.keys.fetchedAt <= 600.0
              then Done(Some(s.keys.byId[kid]), s.now, s.keys) else Waiting)])
  {
  }

  /** With the lock: the same; else it asks the provider if there are no keys or the last ones are half a
      minute old, and otherwise there is no such key. */
  lemma AcquireDecides(s: State, id: nat)
    requires id in s.requests && s.requests[id].phase == Waiting && s.lock == None
    ensures var s', kid := Apply(s, Acquire(id)), s.requests[id].kid;
            && s'.keys == s.keys && s'.requests.Keys == s.requests.Keys && s'.requests[id].kid == kid
            && if kid in s.keys.byId && s.now - s.keys.fetchedAt <= 600.0
               then s'.requests[id].phase == Done(Some(s.keys.byId[kid]), s.now, s.keys) && s'.lock == None
               else if s.keys.byId == map[] || s.now - s.keys.fetchedAt >= 30.0
               then s'.requests[id].phase == Fetching && s'.lock == Some(id)
               else s'.requests[id].phase == Done(None, s.now, s.keys) && s'.lock == None
  {
  }

  /** With the provider's response: the keys are replaced and the request gets the one it wants, if it is
      among them; without one nothing is replaced and it gets none. */
  lemma FetchDecides(s: State, id: nat, response: Option<seq<Jwk>>)
    requires id in s.requests && s.requests[id].phase == Fetching
    ensures var s', kid := Apply(s, FetchEnds(id, response)), s.requests[id].kid;
            && s'.lock == None && s'.requests[id].phase.Done?
            && (response.None? ==> s'.keys == s.keys && s'.requests[id].phase.key == None)
            && (response.Some? ==>
                  && s'.keys.fetchedAt == s.now
                  && s'.requests[id].phase.key == (if kid in s'.keys.byId then Some(s'.keys.byId[kid]) else None)
                  && (s'.requests[id].phase.key == None <==> forall i | 0 <= i < |response.value| ::
                        !((response.value[i].use == None || response.value[i].use == Some("sig"))
                          && response.value[i].kid == Some(kid) && response.value[i].key.Some?))
                  && (forall i, v |
                        && 0 <= i < |response.value|
                        && (response.value[i].use == None || response.value[i].use == Some("sig"))
                        && response.value[i].kid == Some(kid) && response.value[i].key == Some(v)
                        && (forall j | i < j < |response.value| ::
                              !((response.value[j].use == None || response.value[j].use == Some("sig"))
                                && response.value[j].kid == Some(kid) && response.value[j].key.Some?)) ::
                        s'.requests[id].phase.key == Some(v)))
  {
    if response.Some? {
      KeySetSpelled(response.value, s.requests[id].kid);
    }
  }

  ghost predicate IsRun(states: seq<State>, steps: seq<Step>) {
    && |states| == |steps| + 1 && Initial(states[0])
    && forall i | 0 <= i < |steps| :: Enabled(states[i], steps[i]) && states[i + 1] == Apply(states[i], steps[i])
  }

  // --- what every step keeps ------------------------------------------------------------------

  /** The lock is held by the one request that is fetching, if any. */
  ghost predicate Locked(s: State) {
    && (forall id | id in s.requests :: s.requests[id].phase.Fetching? <==> s.lock == Some(id))
    && (s.lock.Some? ==> s.lock.value in s.requests)
    && (s.current.Some? <==> s.lock.Some?)
    && (s.current.Some? ==> s.current.value <= s.now)
  }

  lemma LockedStep(s: State, step: Step)
    requires Locked(s) && Enabled(s, step)
    ensures Locked(Apply(s, step))
  {
  }

  function LastFetch(s: State): Fetch
    requires s.fetches != []
  {
    s.fetches[|s.fetches| - 1]
  }

  /** `t` is not within the refetch interval of a success that brought any keys. */
  ghost predicate Throttled(f: Fetch, t: real) {
    f.byId != map[] ==> t >= f.endedAt + MIN_REFETCH_INTERVAL
  }

  /** The keys held are the latest that came, and refreshes follow one another at the right distance. */
  ghost predicate Recorded(s: State) {
    && s.keys == (if s.fetches == [] then Keys(map[], 0.0) else Keys(LastFetch(s).byId, LastFetch(s).endedAt))
    && s.keys.fetchedAt <= s.now
    && (forall i | 0 <= i < |s.fetches| :: s.fetches[i].startedAt <= s.fetches[i].endedAt <= s.now)
    && (forall i, j | 0 <= i < j < |s.fetches| ::
         s.fetches[i].endedAt <= s.fetches[j].startedAt && Throttled(s.fetches[i], s.fetches[j].startedAt))
    && (s.current.Some? ==>
         forall i | 0 <= i < |s.fetches| ::
           s.fetches[i].endedAt <= s.current.value && Throttled(s.fetches[i], s.current.value))
    && (forall i | 0 <= i < |s.starts| ::
         s.starts[i].1.byId == map[] || s.starts[i].0 >= s.starts[i].1.fetchedAt + MIN_REFETCH_INTERVAL)
  }

  lemma StartIsThrottled(s: State, i: nat)
    requires Recorded(s) && i < |s.fetches|
    requires s.keys.byId == map[] || s.now - s.keys.fetchedAt >= MIN_REFETCH_INTERVAL
    ensures Throttled(s.fetches[i], s.now)
  {
    if i < |s.fetches| - 1 {
      assert Throttled(s.fetches[i], LastFetch(s).startedAt);
    }
  }

  lemma RecordedStep(s: State, step: Step)
    requires Locked(s) && Recorded(s) && Enabled(s, step)
    ensures Recorded(Apply(s, step))
  {
    if step.Acquire? && UnderLock(s.keys, s.requests[step.id].kid, s.now).Refresh? {
      forall i | 0 <= i < |s.fetches| ensures Throttled(s.fetches[i], s.now) { StartIsThrottled(s, i); }
    }
  }

  /** `keys` are what refresh `i` brought, and no other refresh had succeeded since when the clock showed `at`. */
  ghost predicate LatestAt(s: State, keys: Keys, i: int, at: real) {
    && 0 <= i < |s.fetches|
    && keys == Keys(s.fetches[i].byId, s.fetches[i].endedAt)
    && keys.fetchedAt <= at
    && forall j | i < j < |s.fetches| :: at <= s.fetches[j].endedAt
  }

  /** A key that was handed out is in the latest set, and that set was not too old. */
  ghost predicate Justified(s: State, r: Request) {
    match r.phase
    case Done(Some(key), at, from) =>
      && at <= s.now
      && Find(from, r.kid) == Some(key)
      && at - from.fetchedAt <= MAX_AGE
      && exists i :: LatestAt(s, from, i, at)
    case Done(None, at, _) => at <= s.now
    case _ => true
  }

  lemma JustifiedLasts(s: State, step: Step, r: Request)
    requires Enabled(s, step) && Justified(s, r)
    ensures Justified(Apply(s, step), r)
  {
    match r.phase
    case Done(Some(key), at, from) =>
      var i :| LatestAt(s, from, i, at);
      assert LatestAt(Apply(s, step), from, i, at);
    case _ =>
  }

  lemma ActingIsJustified(s: State, step: Step)
    requires Locked(s) && Recorded(s) && Enabled(s, step) && !step.Tick?
    ensures Justified(Apply(s, step), Apply(s, step).requests[step.id])
  {
    var s' := Apply(s, step);
    var n := |s'.fetches| - 1;
    if s'.fetches != [] && s'.keys.fetchedAt <= s'.now && s'.keys == Keys(s'.fetches[n].byId, s'.fetches[n].endedAt) {
      assert LatestAt(s', s'.keys, n, s'.now);
    }
  }

  ghost predicate Inv(s: State) {
    Locked(s) && Recorded(s) && forall id | id in s.requests :: Justified(s, s.requests[id])
  }

  lemma InvStep(s: State, step: Step)
    requires Inv(s) && Enabled(s, step)
    ensures Inv(Apply(s, step))
  {
    LockedStep(s, step);
    RecordedStep(s, step);
    var s' := Apply(s, step);
    forall id | id in s'.requests ensures Justified(s', s'.requests[id]) {
      if !step.Tick? && step.id == id {
        ActingIsJustified(s, step);
      } else {
        JustifiedLasts(s, step, s.requests[id]);
      }
    }
  }

  lemma {:induction false} InvRun(states: seq<State>, steps: seq<Step>, n: nat)
    requires IsRun(states, steps) && n < |states|
    ensures Inv(states[n])
    decreases n
  {
    if n > 0 {
      InvRun(states, steps, n - 1);
      InvStep(states[n - 1], steps[n - 1]);
    }
  }

  // --- the theorems ---------------------------------------------------------------------------------

  /** Refreshes never overlap. */
  lemma RefreshesNeverOverlap(states: seq<State>, steps: seq<Step>, n: nat, a: nat, b: nat)
    requires IsRun(states, steps) && n < |states| && a in states[n].requests && b in states[n].requests
    requires states[n].requests[a].phase.Fetching? && states[n].requests[b].phase.Fetching?
    ensures a == b
  {
    InvRun(states, steps, n);
  }

  /** Any key that is handed out comes from the set that was the latest when it was decided on, and
      that set was at most ten minutes old then. */
  lemma KeysAreCurrent(states: seq<State>, steps: seq<Step>, n: nat, id: nat, key: string, at: real, from: Keys)
    returns (i: nat)
    requires IsRun(states, steps) && n < |states| && id in states[n].requests
    requires states[n].requests[id].phase == Done(Some(key), at, from)
    ensures i < |states[n].fetches|
    ensures var f := states[n].fetches[i];
            && states[n].requests[id].kid in f.byId && f.byId[states[n].requests[id].kid] == key
            && f.endedAt <= at <= f.endedAt + 600.0
            && forall j | i < j < |states[n].fetches| :: at <= states[n].fetches[j].endedAt
  {
    InvRun(states, steps, n);
    assert Justified(states[n], states[n].requests[id]);
    var k :| LatestAt(states[n], from, k, at);
    i := k;
  }

  /** A refresh starts only when no keys are held or the last successful one ended at least half a
      minute before; so after a success that brought keys, the next success started that much later. */
  lemma RefreshesAreSpaced(states: seq<State>, steps: seq<Step>, n: nat, i: nat, j: nat)
    requires IsRun(states, steps) && n < |states|
    ensures i < |states[n].starts| ==>
              states[n].starts[i].1.byId == map[]
              || states[n].starts[i].0 >= states[n].starts[i].1.fetchedAt + 30.0
    ensures i < j < |states[n].fetches| && states[n].fetches[i].byId != map[] ==>
              states[n].fetches[j].startedAt >= states[n].fetches[i].endedAt + 30.0
  {
    InvRun(states, steps, n);
    if i < j < |states[n].fetches| {
      assert Throttled(states[n].fetches[i], states[n].fetches[j].startedAt);
    }
  }

  // --- when the throttle holds ------------------------------------------------------------------

  /** The held keys are enough for this id. */
  predicate Served(keys: Keys, kid: string, now: real) {
    kid in keys.byId && now - keys.fetchedAt <= MAX_AGE
  }

  /** Nothing changes the held keys but the end of a refresh. */
  lemma {:induction false} KeysRest(states: seq<State>, steps: seq<Step>, m: nat, n: nat)
    requires IsRun(states, steps) && m <= n < |states|
    requires forall i | m <= i < n :: !steps[i].FetchEnds?
    ensures states[n].keys == states[m].keys && states[m].now <= states[n].now
    decreases n
  {
    if m < n {
      KeysRest(states, steps, m, n - 1);
    }
  }

  /** What ended a refresh decides whether the next request that the held keys do not serve starts
      another one within the interval: it does if and only if the refresh failed or brought no keys. */
  lemma RefetchedWithinIntervalIff(states: seq<State>, steps: seq<Step>, m: nat, id: nat, response: Option<seq<Jwk>>,
                                   n: nat, next: nat)
    requires IsRun(states, steps) && m < n < |steps|
    requires steps[m] == FetchEnds(id, response) && steps[n] == Acquire(next)
    requires forall i | m < i < n :: !steps[i].FetchEnds?
    requires !Served(states[n].keys, states[n].requests[next].kid, states[n].now)
    requires states[n].now < states[m].now + 30.0
    ensures states[n + 1].requests[next].phase.Fetching? <==> response.None? || KeySet(response.value) == map[]
    ensures states[n + 1].requests[next].phase.Fetching? ==>
              states[n + 1].starts == states[n].starts + [(states[n].now, states[n].keys)]
  {
    InvRun(states, steps, m);
    assert states[m + 1] == Apply(states[m], steps[m]);
    KeysRest(states, steps, m + 1, n);
    assert states[n + 1] == Apply(states[n], steps[n]);
    var s := states[m];
    if s.fetches != [] {
      assert Throttled(LastFetch(s), s.current.value);
    }
  }

  ghost predicate Reaches(s: State, steps: seq<Step>, end: State)
    decreases |steps|
  {
    if steps == [] then s == end else Enabled(s, steps[0]) && Reaches(Apply(s, steps[0]), steps[1..], end)
  }

  lemma {:induction false} ReachesThen(s: State, first: seq<Step>, mid: State, rest: seq<Step>, end: State)
    requires Reaches(s, first, mid) && Reaches(mid, rest, end)
    ensures Reaches(s, first + rest, end)
    decreases |first|
  {
    if first == [] {
      assert first + rest == rest;
    } else {
      assert (first + rest)[1..] == first[1..] + rest;
      ReachesThen(Apply(s, first[0]), first[1..], mid, rest, end);
    }
  }

  /** Two requests for an unknown key id, the first of which finds the provider failing. */
  function TwoRequests(a: nat, b: nat, kid: string): seq<Step> {
    [Begin(a, kid), Acquire(a), FetchEnds(a, None), Begin(b, kid), Acquire(b)]
  }

  /** A refresh that fails leaves no trace for the throttle: whatever keys are held, once an id they
      do not have may start a refresh, a failing provider makes it start two in the same instant. */
  lemma FailedRefreshesAreNotThrottled(s: State, a: nat, b: nat, kid: string) returns (end: State)
    requires s.lock == None && a !in s.requests && b !in s.requests && a != b
    requires kid !in s.keys.byId && (s.keys.byId == map[] || s.now - s.keys.fetchedAt >= 30.0)
    ensures Reaches(s, TwoRequests(a, b, kid), end)
    ensures end.keys == s.keys && end.starts == s.starts + [(s.now, s.keys), (s.now, s.keys)]
  {
    var s1 := Apply(s, Begin(a, kid));
    var s2 := Apply(s1, Acquire(a));
    var s3 := Apply(s2, FetchEnds(a, None));
    var s4 := Apply(s3, Begin(b, kid));
    end := Apply(s4, Acquire(b));
    assert Reaches(s4, [Acquire(b)], end);
    assert Reaches(s3, [Begin(b, kid), Acquire(b)], end);
    assert Reaches(s2, [FetchEnds(a, None), Begin(b, kid), Acquire(b)], end);
    assert Reaches(s1, [Acquire(a), FetchEnds(a, None), Begin(b, kid), Acquire(b)], end);
  }

  /** And so it goes in a run that holds a key: fetched for one id, half a minute before. */
  lemma NotThrottledWhileKeysAreHeld(s: State) returns (end: State)
    requires Initial(s)
    ensures var first :=
              [Begin(0, "k"), Acquire(0), FetchEnds(0, Some([Jwk(None, Some("k"), Some("key"))])), Tick(s.now + 30.0)];
            Reaches(s, first + TwoRequests(1, 2, "x"), end)
    ensures end.keys.byId == map["k" := "key"] && |end.starts| == 3 && end.starts[1].0 == end.starts[2].0
  {
    var jwks := [Jwk(None, Some("k"), Some("key"))];
    assert jwks[..0] == [] && KeySet(jwks) == map["k" := "key"];
    var s1 := Apply(s, Begin(0, "k"));
    var s2 := Apply(s1, Acquire(0));
    var s3 := Apply(s2, FetchEnds(0, Some(jwks)));
    var s4 := Apply(s3, Tick(s.now + 30.0));
    assert Reaches(s3, [Tick(s.now + 30.0)], s4);
    assert Reaches(s2, [FetchEnds(0, Some(jwks)), Tick(s.now + 30.0)], s4);
    assert Reaches(s1, [Acquire(0), FetchEnds(0, Some(jwks)), Tick(s.now + 30.0)], s4);
    var first := [Begin(0, "k"), Acquire(0), FetchEnds(0, Some(jwks)), Tick(s.now + 30.0)];
    assert Reaches(s, first, s4);
    end := FailedRefreshesAreNotThrottled(s4, 1, 2, "x");
    ReachesThen(s, first, s4, TwoRequests(1, 2, "x"), end);
  }
}
