/** Versioned invalidation under every interleaving: any number of lookups and administrators take
    turns at their await points, the clock moves, calls fail, entries are evicted, Redis restarts.

    `load(key, c)` is what the loader answers from the database after `c` commits. A stored answer
    carries the commit and the moment it was loaded at; the code does not store them, and no step
    looks at them. */
module CacheProtocol {
  import opened Results
  import opened RedisCache

  type Loader = (string, nat) -> Result<string, string>

  datatype Answer = Answer(text: string, commit: nat, loadedAt: real)

  datatype Source = FromLoader(loadedAt: real) | FromCache(entry: Entry<Answer>, servedAt: real)

  /** Where a lookup stands between two awaits. */
  datatype Phase =
    | Asked                                   // knows the version, or that there is none to know
    | Missed                                  // found nothing in the cache
    | Loaded(answer: Answer)                  // has an answer to store
    | Done(result: Result<string, string>, commit: nat, source: Source)

  /** `version` is None when the cache could not say; `begun` counts the commits at the start, and
      `floor` those that its answer must not be older than: the ones made before the version it was
      told became current, or before it began if it was told none. */
  datatype Lookup = Lookup(key: string, begun: nat, floor: nat, version: Option<nat>, phase: Phase)

  /** An administrator's change, from its commit to the end of its announcement. */
  datatype Change = Committed(commit: nat) | Announced(commit: nat) | Lost(commit: nat)

  datatype Image = Image(version: nat, entries: Entries<Answer>)

  /** `commitTimes[c]` is when the database reached `c` commits; `births[w]` is how many commits
      there were when version `w` became current (again, if Redis came back to it); `crossed` are the
      lookups that had begun when Redis last came back empty; `disk` is what it last saved of itself. */
  datatype State = State(
    now: real,
    commitTimes: seq<real>,
    version: nat,
    births: seq<nat>,
    entries: Entries<Answer>,
    lookups: map<nat, Lookup>,
    changes: map<nat, Change>,
    crossed: set<nat>,
    disk: Image)
  {
    function Commits(): int { |commitTimes| - 1 }

    /** How many commits there were when the current version became current. */
    function LastBirth(): nat { if births == [] then 0 else births[|births| - 1] }
  }

  datatype Step =
    | Tick(to: real)
    | Commit(change: nat)
    | Announce(change: nat, wire: Wire)
    | Ask(lookup: nat, key: string, answered: bool)
    | Get(lookup: nat, readable: bool)
    | Load(lookup: nat)
    | Store(lookup: nat, stored: bool)
    | Evict(keys: set<(nat, string)>)
    | Restart // Redis comes back empty
    | Persist // it saves itself to disk
    | Reload  // it comes back as it was saved

  const INITIAL := State(0.0, [0.0], 0, [0], map[], map[], map[], {}, Image(0, map[]))

  predicate Enabled(s: State, step: Step) {
    match step
    case Tick(to) => s.now <= to
    case Commit(a) => a !in s.changes
    case Announce(a, _) => a in s.changes && s.changes[a].Committed?
    case Ask(id, _, _) => id !in s.lookups
    case Get(id, _) => id in s.lookups && s.lookups[id].phase.Asked? && s.lookups[id].version.Some?
    case Load(id) =>
      id in s.lookups && (s.lookups[id].phase.Missed? || (s.lookups[id].phase.Asked? && s.lookups[id].version.None?))
    case Store(id, _) => id in s.lookups && s.lookups[id].phase.Loaded? && s.lookups[id].version.Some?
    case Evict(_) => true
    case Restart => true
    case Persist => true
    case Reload => true
  }

  function Move(s: State, id: nat, phase: Phase): State
    requires id in s.lookups
  {
    s.(lookups := s.lookups[id := s.lookups[id].(phase := phase)])
  }

  function Apply(load: Loader, ttl: real, s: State, step: Step): State
    requires Enabled(s, step) && s.commitTimes != []
  {
    match step
    case Tick(to) => s.(now := to)
    case Commit(a) =>
      s.(commitTimes := s.commitTimes + [s.now], changes := s.changes[a := Committed(s.Commits() + 1)])
    case Announce(a, wire) =>
      var c := s.changes[a].commit;
      var told := s.(changes := s.changes[a := if wire.Works? then Announced(c) else Lost(c)]);
      if wire.FailsUnapplied? then told
      else told.(version := s.version + 1, births := s.births + [s.Commits()])
    case Ask(id, key, answered) =>
      var lookup := if answered then Lookup(key, s.Commits(), s.LastBirth(), Some(s.version), Asked)
                    else Lookup(key, s.Commits(), s.Commits(), None, Asked);
      s.(lookups := s.lookups[id := lookup])
    case Get(id, readable) =>
      var l := s.lookups[id];
      match Fetch(s.entries, l.version.value, l.key, s.now) {
        case Some(e) =>
          if readable then Move(s, id, Done(Ok(e.value.text), e.value.commit, FromCache(e, s.now)))
          else Move(s, id, Missed)
        case None => Move(s, id, Missed)
      }
    case Load(id) =>
      var l := s.lookups[id];
      match load(l.key, s.Commits()) {
        case Ok(text) =>
          if l.version.Some? then Move(s, id, Loaded(Answer(text, s.Commits(), s.now)))
          else Move(s, id, Done(Ok(text), s.Commits(), FromLoader(s.now)))
        case Err(e) => Move(s, id, Done(Err(e), s.Commits(), FromLoader(s.now)))
      }
    case Store(id, stored) =>
      var l := s.lookups[id];
      var a := l.phase.answer;
      var t := Move(s, id, Done(Ok(a.text), a.commit, FromLoader(a.loadedAt)));
      if stored then t.(entries := s.entries[(l.version.value, l.key) := Entry(a, s.now, ttl)]) else t
    case Evict(keys) => s.(entries := s.entries - keys)
    case Restart =>
      s.(version := 0, births := [s.Commits()], entries := map[], crossed := s.lookups.Keys, disk := Image(0, map[]))
    case Persist => s.(disk := Image(s.version, s.entries))
    case Reload =>
      var v := s.disk.version;
      var births := if v < s.version && v <= |s.births| then s.births[..v] + [s.Commits()] else s.births;
      s.(version := v, births := births, entries := s.disk.entries)
  }

  /** A run: the states it went through and the step taken in each but the last. */
  ghost predicate IsRun(load: Loader, ttl: real, states: seq<State>, steps: seq<Step>) {
    && |states| == |steps| + 1
    && states[0] == INITIAL
    && forall i | 0 <= i < |steps| :: IsStep(load, ttl, states[i], steps[i], states[i + 1])
  }

  ghost predicate IsStep(load: Loader, ttl: real, s: State, step: Step, s': State) {
    s.commitTimes != [] && Enabled(s, step) && s' == Apply(load, ttl, s, step)
  }

  /** The same for a given list of steps from any state. */
  ghost predicate Reaches(load: Loader, ttl: real, s: State, steps: seq<Step>, end: State)
    decreases |steps|
  {
    if steps == [] then s == end
    else
      && s.commitTimes != [] && Enabled(s, steps[0])
      && Reaches(load, ttl, Apply(load, ttl, s, steps[0]), steps[1..], end)
  }

  // --- what every step keeps, faults and restarts included --------------------------------------

  /** `commit` was the last one when the clock showed `t`. */
  ghost predicate CurrentAt(s: State, commit: int, t: real) {
    && 0 <= commit < |s.commitTimes|
    && s.commitTimes[commit] <= t <= s.now
    && (commit + 1 < |s.commitTimes| ==> t <= s.commitTimes[commit + 1])
  }

  ghost predicate Truthful(load: Loader, s: State, key: string, a: Answer) {
    load(key, a.commit) == Ok(a.text) && CurrentAt(s, a.commit, a.loadedAt)
  }

  ghost predicate TruthfulEntry(load: Loader, ttl: real, s: State, key: string, e: Entry<Answer>) {
    Truthful(load, s, key, e.value) && e.ttl == ttl && e.value.loadedAt <= e.stored <= s.now
  }

  ghost predicate TruthfulLookup(load: Loader, ttl: real, s: State, l: Lookup) {
    match l.phase
    case Asked => true
    case Missed => l.version.Some?
    case Loaded(a) => l.version.Some? && Truthful(load, s, l.key, a)
    case Done(result, commit, source) =>
      && load(l.key, commit) == result
      && match source {
           case FromLoader(t) => CurrentAt(s, commit, t)
           case FromCache(e, t) =>
             TruthfulEntry(load, ttl, s, l.key, e) && Live(e, t) && e.value.commit == commit && e.stored <= t <= s.now
         }
  }

  ghost predicate Sound(load: Loader, ttl: real, s: State) {
    && s.commitTimes != [] && s.commitTimes[|s.commitTimes| - 1] <= s.now
    && (forall k | k in s.entries :: TruthfulEntry(load, ttl, s, k.1, s.entries[k]))
    && (forall k | k in s.disk.entries :: TruthfulEntry(load, ttl, s, k.1, s.disk.entries[k]))
    && (forall id | id in s.lookups :: TruthfulLookup(load, ttl, s, s.lookups[id]))
  }

  /** The database only moves on. */
  ghost predicate Grows(s: State, s': State) {
    && s.commitTimes <= s'.commitTimes && s.now <= s'.now
    && forall i | |s.commitTimes| <= i < |s'.commitTimes| :: s.now <= s'.commitTimes[i]
  }

  lemma StepGrows(load: Loader, ttl: real, s: State, step: Step)
    requires s.commitTimes != [] && Enabled(s, step)
    ensures Grows(s, Apply(load, ttl, s, step))
  {
  }

  lemma CurrentLasts(s: State, s': State, commit: int, t: real)
    requires Grows(s, s') && CurrentAt(s, commit, t)
    ensures CurrentAt(s', commit, t)
  {
  }

  lemma TruthLasts(load: Loader, ttl: real, s: State, s': State, l: Lookup)
    requires Grows(s, s') && TruthfulLookup(load, ttl, s, l)
    ensures TruthfulLookup(load, ttl, s', l)
  {
    match l.phase
    case Asked =>
    case Missed =>
    case Loaded(a) => CurrentLasts(s, s', a.commit, a.loadedAt);
    case Done(_, commit, source) =>
      match source {
        case FromLoader(t) => CurrentLasts(s, s', commit, t);
        case FromCache(e, _) => CurrentLasts(s, s', e.value.commit, e.value.loadedAt);
      }
  }

  /** The lookup that takes a step keeps telling the truth. */
  lemma ActingLookupIsTruthful(load: Loader, ttl: real, s: State, step: Step, id: nat)
    requires Sound(load, ttl, s) && Enabled(s, step)
    requires (step.Ask? || step.Get? || step.Load? || step.Store?) && step.lookup == id
    ensures TruthfulLookup(load, ttl, s, Apply(load, ttl, s, step).lookups[id])
  {
    if id in s.lookups {
      assert TruthfulLookup(load, ttl, s, s.lookups[id]);
    }
    assert CurrentAt(s, s.Commits(), s.now);
  }

  lemma SoundLookups(load: Loader, ttl: real, s: State, step: Step, id: nat)
    requires Sound(load, ttl, s) && Enabled(s, step) && id in Apply(load, ttl, s, step).lookups
    ensures TruthfulLookup(load, ttl, Apply(load, ttl, s, step), Apply(load, ttl, s, step).lookups[id])
  {
    var s' := Apply(load, ttl, s, step);
    StepGrows(load, ttl, s, step);
    if (step.Ask? || step.Get? || step.Load? || step.Store?) && step.lookup == id {
      ActingLookupIsTruthful(load, ttl, s, step, id);
    } else {
      assert s'.lookups[id] == s.lookups[id];
    }
    TruthLasts(load, ttl, s, s', s'.lookups[id]);
  }

  lemma SoundEntries(load: Loader, ttl: real, s: State, step: Step, k: (nat, string))
    requires Sound(load, ttl, s) && Enabled(s, step) && k in Apply(load, ttl, s, step).entries
    ensures TruthfulEntry(load, ttl, Apply(load, ttl, s, step), k.1, Apply(load, ttl, s, step).entries[k])
  {
    var s' := Apply(load, ttl, s, step);
    StepGrows(load, ttl, s, step);
    if step.Store? {
      assert TruthfulLookup(load, ttl, s, s.lookups[step.lookup]);
    }
    EntryLasts(load, ttl, s, s', k.1, s'.entries[k]);
  }

  lemma EntryLasts(load: Loader, ttl: real, s: State, s': State, key: string, e: Entry<Answer>)
    requires Grows(s, s') && TruthfulEntry(load, ttl, s, key, e)
    ensures TruthfulEntry(load, ttl, s', key, e)
  {
    CurrentLasts(s, s', e.value.commit, e.value.loadedAt);
  }

  lemma SoundDisk(load: Loader, ttl: real, s: State, step: Step, k: (nat, string))
    requires Sound(load, ttl, s) && Enabled(s, step) && k in Apply(load, ttl, s, step).disk.entries
    ensures TruthfulEntry(load, ttl, Apply(load, ttl, s, step), k.1, Apply(load, ttl, s, step).disk.entries[k])
  {
    StepGrows(load, ttl, s, step);
    EntryLasts(load, ttl, s, Apply(load, ttl, s, step), k.1, Apply(load, ttl, s, step).disk.entries[k]);
  }

  lemma SoundStep(load: Loader, ttl: real, s: State, step: Step)
    requires Sound(load, ttl, s) && Enabled(s, step)
    ensures Sound(load, ttl, Apply(load, ttl, s, step))
  {
    var s' := Apply(load, ttl, s, step);
    forall k | k in s'.entries ensures TruthfulEntry(load, ttl, s', k.1, s'.entries[k]) {
      SoundEntries(load, ttl, s, step, k);
    }
    forall k | k in s'.disk.entries ensures TruthfulEntry(load, ttl, s', k.1, s'.disk.entries[k]) {
      SoundDisk(load, ttl, s, step, k);
    }
    forall id | id in s'.lookups ensures TruthfulLookup(load, ttl, s', s'.lookups[id]) {
      SoundLookups(load, ttl, s, step, id);
    }
  }

  lemma {:induction false} SoundRun(load: Loader, ttl: real, states: seq<State>, steps: seq<Step>, n: nat)
    requires IsRun(load, ttl, states, steps) && n < |states|
    ensures Sound(load, ttl, states[n])
    decreases n
  {
    if n > 0 {
      SoundRun(load, ttl, states, steps, n - 1);
      assert IsStep(load, ttl, states[n - 1], steps[n - 1], states[n]);
      SoundStep(load, ttl, states[n - 1], steps[n - 1]);
    }
  }

  /** Bounded staleness: whatever fails, is lost or restarts, a finished lookup returned what the
      loader answered at some moment, and an answer out of the cache had been stored, after that
      moment, less than its TTL before it was served. */
  lemma AnswersAreRealAndBounded(load: Loader, ttl: real, states: seq<State>, steps: seq<Step>, n: nat, id: nat)
    requires IsRun(load, ttl, states, steps) && n < |states|
    requires id in states[n].lookups && states[n].lookups[id].phase.Done?
    ensures var l := states[n].lookups[id];
            && load(l.key, l.phase.commit) == l.phase.result
            && match l.phase.source {
                 case FromLoader(t) => CurrentAt(states[n], l.phase.commit, t)
                 case FromCache(e, t) =>
                   && CurrentAt(states[n], l.phase.commit, e.value.loadedAt)
                   && e.value.loadedAt <= e.stored <= t < e.stored + ttl
               }
  {
    SoundRun(load, ttl, states, steps, n);
  }

  // --- freshness: what every step keeps but a late store ------------------------------------------

  /** A lookup that had begun when Redis restarted stores its answer only afterwards. */
  predicate StoresLate(s: State, step: Step) {
    step.Store? && step.stored && step.lookup in s.crossed
  }

  /** Redis comes back with an older version than it had. */
  predicate TurnsBack(s: State, step: Step) {
    step.Reload? && s.disk.version != s.version
  }

  /** Neither of the two things that break freshness. */
  predicate Orderly(s: State, step: Step) {
    !StoresLate(s, step) && !TurnsBack(s, step)
  }

  /** `commit` is no older than what version `w` promises. */
  ghost predicate NoOlderThan(s: State, w: nat, commit: int) {
    w < |s.births| && s.births[w] <= commit <= s.Commits()
  }

  /** A lookup counts on what the version it was told promised; if Redis restarted meanwhile, every
      version there is now promises more than that. */
  ghost predicate FreshLookup(s: State, crossed: bool, l: Lookup) {
    && l.floor <= l.begun <= s.Commits()
    && (crossed ==> s.births != [] && l.begun <= s.births[0])
    && (!crossed && l.version.Some? ==> l.version.value < |s.births| && s.births[l.version.value] == l.floor)
    && (l.phase.Loaded? ==> l.floor <= l.phase.answer.commit <= s.Commits())
    && (l.phase.Done? ==> l.floor <= l.phase.commit <= s.Commits())
  }

  /** Each version promises at least as much as the one before it. */
  ghost predicate Ordered(s: State) {
    && s.commitTimes != []
    && |s.births| == s.version + 1 && s.disk.version <= s.version
    && (forall i | 0 <= i < |s.births| :: s.births[i] <= s.Commits())
    && (forall i, j | 0 <= i <= j < |s.births| :: s.births[i] <= s.births[j])
    && (forall a | a in s.changes :: s.changes[a].commit <= s.Commits())
  }

  /** Every entry under a version is at least as new as the commits made before that version. */
  ghost predicate Versioned(s: State) {
    && Ordered(s)
    && (forall k | k in s.entries :: NoOlderThan(s, k.0, s.entries[k].value.commit))
    && (forall k | k in s.disk.entries :: NoOlderThan(s, k.0, s.disk.entries[k].value.commit))
    && (forall id | id in s.lookups :: FreshLookup(s, id in s.crossed, s.lookups[id]))
  }

  /** What later states remember of an earlier one. */
  ghost predicate Remembers(s: State, s': State) {
    && s.LastBirth() <= s'.LastBirth() && s.Commits() <= s'.Commits()
    && (forall id | id in s.lookups :: id in s'.lookups && SameLookup(s.lookups[id], s'.lookups[id]))
  }

  ghost predicate SameLookup(l: Lookup, m: Lookup) {
    m.key == l.key && m.floor == l.floor
  }

  lemma StepRemembers(load: Loader, ttl: real, s: State, step: Step)
    requires Ordered(s) && Enabled(s, step)
    ensures Remembers(s, Apply(load, ttl, s, step))
  {
  }

  lemma OrderedStep(load: Loader, ttl: real, s: State, step: Step)
    requires Ordered(s) && Enabled(s, step)
    ensures Ordered(Apply(load, ttl, s, step))
  {
  }

  /** A lookup that takes no step stays fresh, across a restart as well. */
  lemma FreshLasts(load: Loader, ttl: real, s: State, step: Step, id: nat)
    requires Versioned(s) && Enabled(s, step) && !TurnsBack(s, step) && id in s.lookups
    ensures FreshLookup(Apply(load, ttl, s, step), id in Apply(load, ttl, s, step).crossed, s.lookups[id])
  {
    assert FreshLookup(s, id in s.crossed, s.lookups[id]);
  }

  lemma ActingLookupIsFresh(load: Loader, ttl: real, s: State, step: Step, id: nat)
    requires Versioned(s) && Enabled(s, step) && (step.Ask? ==> step.lookup !in s.crossed)
    requires (step.Ask? || step.Get? || step.Load? || step.Store?) && step.lookup == id
    ensures var s' := Apply(load, ttl, s, step); FreshLookup(s', id in s'.crossed, s'.lookups[id])
  {
    if step.Get? {
      GetIsFresh(load, ttl, s, step, id);
    } else if id in s.lookups {
      assert FreshLookup(s, id in s.crossed, s.lookups[id]);
    }
  }

  /** What a lookup finds is no older than it may be, whether the version it was told is still meant
      or is one that began after a restart. */
  lemma GetIsFresh(load: Loader, ttl: real, s: State, step: Step, id: nat)
    requires Versioned(s) && Enabled(s, step) && step.Get? && step.lookup == id
    ensures var s' := Apply(load, ttl, s, step); FreshLookup(s', id in s'.crossed, s'.lookups[id])
  {
    var l := s.lookups[id];
    assert FreshLookup(s, id in s.crossed, l);
    var k := (l.version.value, l.key);
    if k in s.entries {
      assert NoOlderThan(s, k.0, s.entries[k].value.commit);
      assert s.births[0] <= s.births[k.0];
    }
  }

  lemma FreshEntries(load: Loader, ttl: real, s: State, step: Step, k: (nat, string))
    requires Versioned(s) && Enabled(s, step) && Orderly(s, step) && k in Apply(load, ttl, s, step).entries
    ensures NoOlderThan(Apply(load, ttl, s, step), k.0, Apply(load, ttl, s, step).entries[k].value.commit)
  {
    if step.Store? {
      assert FreshLookup(s, step.lookup in s.crossed, s.lookups[step.lookup]);
    }
    if !step.Restart? {
      assert NoOlderThan(s, k.0, Apply(load, ttl, s, step).entries[k].value.commit);
    }
  }

  lemma FreshDisk(load: Loader, ttl: real, s: State, step: Step, k: (nat, string))
    requires Versioned(s) && Enabled(s, step) && Orderly(s, step) && k in Apply(load, ttl, s, step).disk.entries
    ensures NoOlderThan(Apply(load, ttl, s, step), k.0, Apply(load, ttl, s, step).disk.entries[k].value.commit)
  {
    assert NoOlderThan(s, k.0, Apply(load, ttl, s, step).disk.entries[k].value.commit);
  }

  /** Only lookups that have begun can have crossed a restart. */
  ghost predicate CrossedHaveBegun(s: State) {
    s.crossed <= s.lookups.Keys
  }

  lemma CrossedStep(load: Loader, ttl: real, s: State, step: Step)
    requires Ordered(s) && CrossedHaveBegun(s) && Enabled(s, step)
    ensures CrossedHaveBegun(Apply(load, ttl, s, step))
  {
  }

  lemma FreshLookups(load: Loader, ttl: real, s: State, step: Step, id: nat)
    requires Versioned(s) && CrossedHaveBegun(s) && Enabled(s, step) && !TurnsBack(s, step)
    requires id in Apply(load, ttl, s, step).lookups
    ensures var s' := Apply(load, ttl, s, step); FreshLookup(s', id in s'.crossed, s'.lookups[id])
  {
    if (step.Ask? || step.Get? || step.Load? || step.Store?) && step.lookup == id {
      ActingLookupIsFresh(load, ttl, s, step, id);
    } else {
      FreshLasts(load, ttl, s, step, id);
    }
  }

  lemma VersionedStep(load: Loader, ttl: real, s: State, step: Step)
    requires Versioned(s) && CrossedHaveBegun(s) && Enabled(s, step) && Orderly(s, step)
    ensures Versioned(Apply(load, ttl, s, step)) && CrossedHaveBegun(Apply(load, ttl, s, step))
  {
    var s' := Apply(load, ttl, s, step);
    OrderedStep(load, ttl, s, step);
    CrossedStep(load, ttl, s, step);
    forall k | k in s'.entries ensures NoOlderThan(s', k.0, s'.entries[k].value.commit) {
      FreshEntries(load, ttl, s, step, k);
    }
    forall k | k in s'.disk.entries ensures NoOlderThan(s', k.0, s'.disk.entries[k].value.commit) {
      FreshDisk(load, ttl, s, step, k);
    }
    forall id | id in s'.lookups ensures FreshLookup(s', id in s'.crossed, s'.lookups[id]) {
      FreshLookups(load, ttl, s, step, id);
    }
  }

  lemma {:induction false} VersionedRun(load: Loader, ttl: real, states: seq<State>, steps: seq<Step>, n: nat)
    requires IsRun(load, ttl, states, steps) && n < |states|
    requires forall i | 0 <= i < |steps| :: Orderly(states[i], steps[i])
    ensures Versioned(states[n]) && CrossedHaveBegun(states[n])
    decreases n
  {
    if n > 0 {
      VersionedRun(load, ttl, states, steps, n - 1);
      assert IsStep(load, ttl, states[n - 1], steps[n - 1], states[n]);
      VersionedStep(load, ttl, states[n - 1], steps[n - 1]);
    }
  }

  lemma {:induction false} OrderedRun(load: Loader, ttl: real, states: seq<State>, steps: seq<Step>, n: nat)
    requires IsRun(load, ttl, states, steps) && n < |states|
    ensures Ordered(states[n])
    decreases n
  {
    if n > 0 {
      OrderedRun(load, ttl, states, steps, n - 1);
      assert IsStep(load, ttl, states[n - 1], steps[n - 1], states[n]);
      OrderedStep(load, ttl, states[n - 1], steps[n - 1]);
    }
  }

  lemma RemembersOn(a: State, b: State, c: State)
    requires Remembers(a, b) && Remembers(b, c)
    ensures Remembers(a, c)
  {
  }

  lemma {:induction false} RunRemembers(load: Loader, ttl: real, states: seq<State>, steps: seq<Step>, m: nat, n: nat)
    requires IsRun(load, ttl, states, steps) && m <= n < |states|
    ensures Remembers(states[m], states[n])
    decreases n
  {
    if m < n {
      RunRemembers(load, ttl, states, steps, m, n - 1);
      OrderedRun(load, ttl, states, steps, n - 1);
      assert IsStep(load, ttl, states[n - 1], steps[n - 1], states[n]);
      StepRemembers(load, ttl, states[n - 1], steps[n - 1]);
      RemembersOn(states[m], states[n - 1], states[n]);
    }
  }

  /** Freshness: a lookup that begins after an administrator's announcement got through returns what
      the loader answers for the database at or after that administrator's commit, however the
      steps of everybody else fall in between, slow lookups storing old answers and restarts of Redis
      included, as long as no lookup stores an answer across a restart that came back empty and Redis
      does not come back with an older version. */
  lemma ChangesAreEffectiveImmediately(load: Loader, ttl: real, states: seq<State>, steps: seq<Step>,
                                       change: nat, announced: nat, id: nat, asked: nat, n: nat)
    requires IsRun(load, ttl, states, steps)
    requires forall i | 0 <= i < |steps| :: Orderly(states[i], steps[i])
    requires announced < asked < n < |states|
    requires change in states[announced].changes && steps[announced] == Announce(change, Works)
    requires steps[asked].Ask? && steps[asked].lookup == id
    requires id in states[n].lookups && states[n].lookups[id].phase.Done?
    ensures var l := states[n].lookups[id];
            && l.key == steps[asked].key
            && states[announced].changes[change].commit <= l.phase.commit <= states[n].Commits()
            && l.phase.result == load(l.key, l.phase.commit)
  {
    assert IsStep(load, ttl, states[announced], steps[announced], states[announced + 1]);
    assert IsStep(load, ttl, states[asked], steps[asked], states[asked + 1]);
    SoundRun(load, ttl, states, steps, n);
    VersionedRun(load, ttl, states, steps, announced);
    VersionedRun(load, ttl, states, steps, asked);
    VersionedRun(load, ttl, states, steps, n);
    RunRemembers(load, ttl, states, steps, announced + 1, asked);
    RunRemembers(load, ttl, states, steps, asked + 1, n);
    assert FreshLookup(states[n], id in states[n].crossed, states[n].lookups[id]);
  }

  // --- why a late store has to be ruled out -----------------------------------------------------

  /** An answer that is stored under the current version is served to the next lookup, and that is a
      fresh answer if and only if it is not older than the version. Of lookups that did not cross a
      restart it never is older. */
  lemma StoredAnswerIsFreshIff(load: Loader, ttl: real, s: State, id: nat, next: nat) returns (end: State)
    requires ttl > 0.0 && Versioned(s) && id in s.lookups && next !in s.lookups
    requires s.lookups[id].phase.Loaded? && s.lookups[id].version == Some(s.version)
    ensures Reaches(load, ttl, s, [Store(id, true), Ask(next, s.lookups[id].key, true), Get(next, true)], end)
    ensures next in end.lookups && end.lookups[next].phase.Done?
    ensures end.lookups[next].phase.commit == s.lookups[id].phase.answer.commit
            && end.lookups[next].floor == s.LastBirth()
    ensures FreshLookup(end, false, end.lookups[next]) <==> s.LastBirth() <= s.lookups[id].phase.answer.commit
    ensures id !in s.crossed ==> s.LastBirth() <= s.lookups[id].phase.answer.commit
  {
    var key := s.lookups[id].key;
    var s1 := Apply(load, ttl, s, Store(id, true));
    var s2 := Apply(load, ttl, s1, Ask(next, key, true));
    end := Apply(load, ttl, s2, Get(next, true));
    assert Reaches(load, ttl, s2, [Get(next, true)], end);
    assert Reaches(load, ttl, s1, [Ask(next, key, true), Get(next, true)], end);
    assert FreshLookup(s, id in s.crossed, s.lookups[id]);
  }

  /** A lookup loads an old answer; a change is committed and its announcement gets through. */
  const BEFORE_RESTART: seq<Step> := [Ask(0, "k", true), Get(0, true), Load(0), Commit(7), Announce(7, Works)]

  /** The old answer is stored late; a second lookup begins and is served. */
  const FROM_RESTART: seq<Step> := [Restart, Store(0, true), Ask(1, "k", true), Get(1, true)]

  lemma LateAnswerBeforeRestart(load: Loader, ttl: real, text: string) returns (s: State)
    requires load("k", 0) == Ok(text)
    ensures Reaches(load, ttl, INITIAL, BEFORE_RESTART, s)
    ensures s == State(0.0, [0.0, 0.0], 1, [0, 1], map[],
                       map[0 := Lookup("k", 0, 0, Some(0), Loaded(Answer(text, 0, 0.0)))],
                       map[7 := Announced(1)], {}, Image(0, map[]))
  {
    var s1 := Apply(load, ttl, INITIAL, Ask(0, "k", true));
    var s2 := Apply(load, ttl, s1, Get(0, true));
    var s3 := Apply(load, ttl, s2, Load(0));
    var s4 := Apply(load, ttl, s3, Commit(7));
    s := Apply(load, ttl, s4, Announce(7, Works));
    assert Reaches(load, ttl, s4, [Announce(7, Works)], s);
    assert Reaches(load, ttl, s3, [Commit(7), Announce(7, Works)], s);
    assert Reaches(load, ttl, s2, [Load(0), Commit(7), Announce(7, Works)], s);
    assert Reaches(load, ttl, s1, [Get(0, true), Load(0), Commit(7), Announce(7, Works)], s);
  }

  /** After a restart the counter starts over, so an old answer stored late by a lookup from before
      can sit under a version number that is current again: the second lookup began after the
      announcement of commit 1 got through, and was told what commit 0 said. The store is late. */
  lemma RestartBreaksFreshness(load: Loader, ttl: real) returns (mid: State, end: State)
    requires ttl > 0.0 && load("k", 0).Ok? && load("k", 1) != load("k", 0)
    ensures Reaches(load, ttl, INITIAL, BEFORE_RESTART, mid) && mid.changes == map[7 := Announced(1)]
    ensures 1 !in mid.lookups && Reaches(load, ttl, mid, FROM_RESTART, end)
    ensures StoresLate(Apply(load, ttl, mid, Restart), Store(0, true))
    ensures 1 in end.lookups && end.lookups[1].phase.Done? && end.Commits() == 1
    ensures end.lookups[1].phase.result == load("k", 0) != load("k", 1)
  {
    mid := LateAnswerBeforeRestart(load, ttl, load("k", 0).value);
    var s6 := Apply(load, ttl, mid, Restart);
    var s7 := Apply(load, ttl, s6, Store(0, true));
    var s8 := Apply(load, ttl, s7, Ask(1, "k", true));
    end := Apply(load, ttl, s8, Get(1, true));
    assert Reaches(load, ttl, s8, [Get(1, true)], end);
    assert Reaches(load, ttl, s7, [Ask(1, "k", true), Get(1, true)], end);
    assert Reaches(load, ttl, s6, [Store(0, true), Ask(1, "k", true), Get(1, true)], end);
  }

  /** An old answer is stored and saved to disk, and a change announced; Redis comes back as it was. */
  const BEFORE_RELOAD: seq<Step> := [
    Ask(0, "k", true), Get(0, true), Load(0), Store(0, true), Persist, Commit(7), Announce(7, Works)]

  const FROM_RELOAD: seq<Step> := [Reload, Ask(1, "k", true), Get(1, true)]

  lemma StateBeforeReload(load: Loader, ttl: real, text: string) returns (s: State)
    requires load("k", 0) == Ok(text)
    ensures Reaches(load, ttl, INITIAL, BEFORE_RELOAD, s)
    ensures s.version == 1 && s.now == 0.0 && s.Commits() == 1
    ensures s.lookups.Keys == {0} && s.changes == map[7 := Announced(1)]
    ensures s.disk == Image(0, map[(0, "k") := Entry(Answer(text, 0, 0.0), 0.0, ttl)])
  {
    var s1 := Apply(load, ttl, INITIAL, Ask(0, "k", true));
    var s2 := Apply(load, ttl, s1, Get(0, true));
    var s3 := Apply(load, ttl, s2, Load(0));
    var s4 := Apply(load, ttl, s3, Store(0, true));
    var s5 := Apply(load, ttl, s4, Persist);
    var s6 := Apply(load, ttl, s5, Commit(7));
    s := Apply(load, ttl, s6, Announce(7, Works));
    assert Reaches(load, ttl, s6, [Announce(7, Works)], s);
    assert Reaches(load, ttl, s5, [Commit(7), Announce(7, Works)], s);
    assert Reaches(load, ttl, s4, [Persist, Commit(7), Announce(7, Works)], s);
    assert Reaches(load, ttl, s3, [Store(0, true), Persist, Commit(7), Announce(7, Works)], s);
    assert Reaches(load, ttl, s2, [Load(0), Store(0, true), Persist, Commit(7), Announce(7, Works)], s);
    assert Reaches(load, ttl, s1, [Get(0, true), Load(0), Store(0, true), Persist, Commit(7), Announce(7, Works)], s);
  }

  /** If Redis comes back with an older version it brings the answers from before the announcement
      back too, and no store has to be late. */
  lemma ReloadBreaksFreshness(load: Loader, ttl: real) returns (mid: State, end: State)
    requires ttl > 0.0 && load("k", 0).Ok? && load("k", 1) != load("k", 0)
    ensures Reaches(load, ttl, INITIAL, BEFORE_RELOAD, mid) && mid.changes == map[7 := Announced(1)]
    ensures TurnsBack(mid, Reload) && 1 !in mid.lookups && Reaches(load, ttl, mid, FROM_RELOAD, end)
    ensures 1 in end.lookups && end.lookups[1].phase.Done? && end.Commits() == 1
    ensures end.lookups[1].phase.result == load("k", 0) != load("k", 1)
  {
    mid := StateBeforeReload(load, ttl, load("k", 0).value);
    var s8 := Apply(load, ttl, mid, Reload);
    var s9 := Apply(load, ttl, s8, Ask(1, "k", true));
    end := Apply(load, ttl, s9, Get(1, true));
    assert Reaches(load, ttl, s9, [Get(1, true)], end);
    assert Reaches(load, ttl, s8, [Ask(1, "k", true), Get(1, true)], end);
  }

  // --- the code takes these steps ---------------------------------------------------------------

  function Answered(load: Loader, key: string, commit: nat, now: real): Result<Answer, string> {
    match load(key, commit)
    case Ok(text) => Ok(Answer(text, commit, now))
    case Err(e) => Err(e)
  }

  function ResultOf(a: Result<Answer, string>): Result<string, string> {
    match a
    case Ok(answer) => Ok(answer.text)
    case Err(e) => Err(e)
  }

  ghost predicate Mirrors(redis: RedisServer<Answer>, s: State)
    reads redis
  {
    redis.version == s.version && redis.entries == s.entries
  }

  /** Asking for the version is a step, whatever the rest of the system is doing. */
  method VersionIsAsk(cache: RedisCache<Answer>, load: Loader, ttl: real, s: State, id: nat, key: string, c: Call)
    returns (v: Option<nat>, ghost t: State)
    requires s.commitTimes != [] && id !in s.lookups && Mirrors(cache.redis, s) && !c.bump
    modifies cache
    ensures IsStep(load, ttl, s, Ask(id, key, v.Some?), t) && Mirrors(cache.redis, t)
    ensures t.lookups[id].version == v
  {
    v := cache.Version(c);
    t := Apply(load, ttl, s, Ask(id, key, v.Some?));
  }

  /** So is getting an entry: the lookup is done exactly when it is handed something readable. */
  method GetIsGet(cache: RedisCache<Answer>, load: Loader, ttl: real, s: State, id: nat, readable: Answer -> bool,
                  c: Call)
    returns (hit: Option<Entry<Answer>>, ghost t: State)
    requires s.commitTimes != [] && id in s.lookups && s.lookups[id].phase.Asked? && s.lookups[id].version.Some?
    requires Mirrors(cache.redis, s) && !c.bump && c.at == s.now
    modifies cache
    ensures IsStep(load, ttl, s, Get(id, hit.Some? && readable(hit.value.value)), t) && Mirrors(cache.redis, t)
    ensures t.lookups[id].phase.Done? <==> hit.Some? && readable(hit.value.value)
    ensures t.lookups[id].phase.Done? ==> t.lookups[id].phase.result == Ok(hit.value.value.text)
    ensures !t.lookups[id].phase.Done? ==> t.lookups[id].phase.Missed?
  {
    hit := cache.Get(c, s.lookups[id].version.value, s.lookups[id].key);
    t := Apply(load, ttl, s, Get(id, hit.Some? && readable(hit.value.value)));
  }

  /** And storing one, which may be lost. */
  method SetIsStore(cache: RedisCache<Answer>, load: Loader, ttl: real, s: State, id: nat, c: Call)
    returns (ghost stored: bool, ghost t: State)
    requires s.commitTimes != [] && id in s.lookups && s.lookups[id].phase.Loaded? && s.lookups[id].version.Some?
    requires Mirrors(cache.redis, s) && !c.bump && c.at == s.now
    modifies cache, cache.redis
    ensures IsStep(load, ttl, s, Store(id, stored), t) && Mirrors(cache.redis, t)
    ensures stored <==> Attempted(old(cache.downUntil), c) && !c.wire.FailsUnapplied?
  {
    stored := Attempted(cache.downUntil, c) && !c.wire.FailsUnapplied?;
    t := Apply(load, ttl, s, Store(id, stored));
    cache.Set(c, s.lookups[id].version.value, s.lookups[id].key, s.lookups[id].phase.answer, ttl);
  }

  /** And announcing a change. */
  method BumpIsAnnounce(cache: RedisCache<Answer>, load: Loader, ttl: real, s: State, change: nat, c: Call)
    returns (ghost t: State)
    requires s.commitTimes != [] && change in s.changes && s.changes[change].Committed?
    requires Mirrors(cache.redis, s) && c.bump
    modifies cache, cache.redis
    ensures IsStep(load, ttl, s, Announce(change, c.wire), t) && Mirrors(cache.redis, t)
  {
    cache.Bump(c);
    t := Apply(load, ttl, s, Announce(change, c.wire));
  }

  /** The steps of a lookup that nobody interrupts. */
  function SoloSteps(id: nat, key: string, knowsVersion: bool, hits: bool, loads: bool, stores: bool): seq<Step> {
    if !knowsVersion then [Ask(id, key, false), Load(id)]
    else if hits then [Ask(id, key, true), Get(id, true)]
    else if !loads then [Ask(id, key, true), Get(id, false), Load(id)]
    else [Ask(id, key, true), Get(id, false), Load(id), Store(id, stores)]
  }

  lemma SkippingRun(load: Loader, ttl: real, s: State, id: nat, key: string) returns (end: State)
    requires s.commitTimes != [] && id !in s.lookups
    ensures Reaches(load, ttl, s, SoloSteps(id, key, false, false, true, false), end)
    ensures end.version == s.version && end.entries == s.entries
    ensures id in end.lookups && end.lookups[id].phase.Done? && end.lookups[id].phase.result == load(key, s.Commits())
  {
    var s1 := Apply(load, ttl, s, Ask(id, key, false));
    end := Apply(load, ttl, s1, Load(id));
    assert Reaches(load, ttl, s1, [Load(id)], end);
  }

  lemma HittingRun(load: Loader, ttl: real, s: State, id: nat, key: string) returns (end: State)
    requires s.commitTimes != [] && id !in s.lookups && Fetch(s.entries, s.version, key, s.now).Some?
    ensures Reaches(load, ttl, s, SoloSteps(id, key, true, true, true, false), end)
    ensures end.version == s.version && end.entries == s.entries
    ensures id in end.lookups && end.lookups[id].phase.Done?
    ensures end.lookups[id].phase.result == Ok(s.entries[(s.version, key)].value.text)
  {
    var s1 := Apply(load, ttl, s, Ask(id, key, true));
    end := Apply(load, ttl, s1, Get(id, true));
    assert Reaches(load, ttl, s1, [Get(id, true)], end);
  }

  lemma LoadingRun(load: Loader, ttl: real, s: State, id: nat, key: string, stores: bool) returns (end: State)
    requires s.commitTimes != [] && id !in s.lookups
    ensures Reaches(load, ttl, s, SoloSteps(id, key, true, false, load(key, s.Commits()).Ok?, stores), end)
    ensures end.version == s.version
    ensures id in end.lookups && end.lookups[id].phase.Done? && end.lookups[id].phase.result == load(key, s.Commits())
    ensures end.entries ==
            if load(key, s.Commits()).Ok? && stores
            then
              var loaded := Answer(load(key, s.Commits()).value, s.Commits(), s.now);
              s.entries[(s.version, key) := Entry(loaded, s.now, ttl)]
            else s.entries
  {
    var s1 := Apply(load, ttl, s, Ask(id, key, true));
    var s2 := Apply(load, ttl, s1, Get(id, false));
    var s3 := Apply(load, ttl, s2, Load(id));
    if load(key, s.Commits()).Ok? {
      end := Apply(load, ttl, s3, Store(id, stores));
      assert Reaches(load, ttl, s3, [Store(id, stores)], end);
      assert Reaches(load, ttl, s2, [Load(id), Store(id, stores)], end);
      assert Reaches(load, ttl, s1, [Get(id, false), Load(id), Store(id, stores)], end);
    } else {
      end := s3;
      assert Reaches(load, ttl, s2, [Load(id)], end);
      assert Reaches(load, ttl, s1, [Get(id, false), Load(id)], end);
    }
  }

  /** `cached_json` on the real client, with nobody in between and whatever its calls meet, does what
      some run of the protocol's steps does: same answer, same store. */
  method CodeRunsTheProtocol(cache: RedisCache<Answer>, load: Loader, ttl: real, s: State, id: nat, key: string,
                             readable: Answer -> bool, ask: Call, get: Call, put: Call)
    returns (answer: Result<Answer, string>, ghost steps: seq<Step>, ghost end: State)
    requires s.commitTimes != [] && id !in s.lookups
    requires cache.redis.version == s.version && cache.redis.entries == s.entries
    requires !ask.bump && !get.bump && !put.bump && get.at == put.at == s.now
    modifies cache, cache.redis
    ensures Reaches(load, ttl, s, steps, end)
    ensures id in end.lookups && end.lookups[id].phase.Done? && end.lookups[id].phase.result == ResultOf(answer)
    ensures cache.redis.version == end.version && cache.redis.entries == end.entries
    // The steps are told by what happens to the calls: the version is known when it is asked for and
    // answered, and the entry is readable when it is handed out and has the expected shape.
    ensures steps != [] && steps[0] == Ask(id, key, old(cache.downUntil) <= ask.at && ask.wire == Works)
    ensures old(cache.downUntil) <= ask.at && ask.wire == Works ==>
              |steps| > 1 && steps[1] == Get(id, && old(cache.downUntil) <= get.at && get.wire == Works
                                                 && (s.version, key) in s.entries
                                                 && var e := s.entries[(s.version, key)];
                                                    get.at < e.stored + e.ttl && readable(e.value))
  {
    var loaded := Answered(load, key, s.Commits(), s.now);
    ghost var knows := cache.downUntil <= ask.at && ask.wire == Works;
    ghost var served := knows && cache.downUntil <= get.at && get.wire == Works
                        && (s.version, key) in s.entries
                        && get.at < s.entries[(s.version, key)].stored + s.entries[(s.version, key)].ttl
                        && readable(s.entries[(s.version, key)].value);
    answer := cache.CachedJson(key, ttl, loaded, readable, ask, get, put);
    if !knows {
      steps := SoloSteps(id, key, false, false, true, false);
      end := SkippingRun(load, ttl, s, id, key);
    } else if !served {
      ghost var stores := cache.redis.entries != s.entries;
      steps := SoloSteps(id, key, true, false, loaded.Ok?, stores);
      end := LoadingRun(load, ttl, s, id, key, stores);
    } else {
      steps := SoloSteps(id, key, true, true, true, false);
      end := HittingRun(load, ttl, s, id, key);
    }
  }
}
