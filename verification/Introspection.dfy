/** Token introspection with a cache, under every interleaving: which tokens are accepted, and on the
    strength of which answer from the provider. */
module Introspection {
  import opened Results

  const NEGATIVE_TTL := 5

  /** What JSON makes of `active`: the literal true, something else that counts as true, or not. */
  datatype Active = Yes | Truthy | No

  datatype Expiry = Seconds(at: int) | NotAnInteger

  datatype Claims = Claims(active: Active, hasSub: bool, exp: Expiry, audiences: set<string>, issuer: Option<string>)

  /** What is stored for an inactive token, whatever else the provider said about it. */
  const INACTIVE := Claims(No, false, NotAnInteger, {}, None)

  datatype Config = Config(audience: string, issuer: Option<string>, cacheTtl: int)

  /** `int(time.time())` */
  function Clock(now: real): int {
    now.Floor
  }

  predicate Acceptable(config: Config, claims: Claims, now: real) {
    && claims.active.Yes? && claims.hasSub
    && claims.exp.Seconds? && claims.exp.at > Clock(now)
    && config.audience in claims.audiences
    && (config.issuer == None || claims.issuer == config.issuer)
  }

  /** How long an answer is stored; nothing is stored for zero or less. */
  function TtlOf(config: Config, claims: Claims, now: real): int {
    if claims.active.No? then NEGATIVE_TTL
    else if claims.exp.Seconds? && claims.exp.at - Clock(now) < config.cacheTtl then claims.exp.at - Clock(now)
    else config.cacheTtl
  }

  function Stored(claims: Claims): Claims {
    if claims.active.No? then INACTIVE else claims
  }

  datatype Reply = Failed | NotAnObject | Answered(claims: Claims)

  /** `_introspect` on the provider's reply: the claims to judge, if any, and what to put in the cache. */
  method Introspect(config: Config, reply: Reply, now: real)
    returns (claims: Option<Claims>, store: Option<(Claims, int)>)
    ensures claims == (if reply.Answered? then Some(reply.claims) else None)
    ensures store == (if reply.Answered? && TtlOf(config, reply.claims, now) > 0
                      then Some((Stored(reply.claims), TtlOf(config, reply.claims, now))) else None)
    // A reply without claims gives nothing; "inactive" is kept five seconds; anything else is kept for
    // the configured time, but not beyond the token's own expiry, and not at all if that is past.
    ensures !reply.Answered? ==> claims == None && store == None
    ensures reply.Answered? && reply.claims.active == No ==>
              claims == Some(reply.claims) && store.Some? && store.value.1 == 5 && store.value.0.active == No
    ensures reply.Answered? && reply.claims.active != No && config.cacheTtl > 0
            && (reply.claims.exp == NotAnInteger || reply.claims.exp.at - now.Floor >= config.cacheTtl) ==>
              claims == Some(reply.claims) && store == Some((reply.claims, config.cacheTtl))
    ensures reply.Answered? && reply.claims.active != No && reply.claims.exp.Seconds?
            && reply.claims.exp.at - now.Floor < config.cacheTtl ==>
              && claims == Some(reply.claims)
              && store == if reply.claims.exp.at - now.Floor <= 0 then None
                          else Some((reply.claims, reply.claims.exp.at - now.Floor))
  {
    if !reply.Answered? {
      return None, None;
    }
    var c := reply.claims;
    if c.active.No? {
      return Some(c), Some((INACTIVE, NEGATIVE_TTL));
    }
    var ttl := config.cacheTtl;
    if c.exp.Seconds? {
      ttl := if c.exp.at - Clock(now) < ttl then c.exp.at - Clock(now) else ttl;
    }
    return Some(c), if ttl > 0 then Some((c, ttl)) else None;
  }

  // --- requests, taking turns -----------------------------------------------------------------

  /** An answer of the provider about a token. */
  datatype Fact = Fact(token: string, claims: Claims, at: real)

  /** A cache entry; `fact` is the answer it was made from, which no step looks at. */
  datatype Entry = Entry(claims: Claims, stored: real, ttl: int, fact: Fact)

  datatype Source = FromProvider(fact: Fact) | FromCache(entry: Entry)

  datatype Phase =
    | Looking                       // about to ask the cache
    | Querying                      // waiting for the provider
    | Storing(fact: Fact, ttl: int) // waiting for the cache to store
    | Accepted(claims: Claims, at: real, source: Source)
    | Rejected

  datatype Request = Request(token: string, begunAt: real, phase: Phase)

  /** `facts` are all the answers the provider has given. */
  datatype State = State(now: real, entries: map<string, Entry>, requests: map<nat, Request>, facts: seq<Fact>)

  datatype Step =
    | Tick(to: real)
    | Begin(id: nat, token: string)
    | Look(id: nat, readable: bool)
    | ProviderReplies(id: nat, reply: Reply)
    | Store(id: nat, stored: bool)
    | Evict(tokens: set<string>)

  predicate Enabled(s: State, step: Step) {
    match step
    case Tick(to) => s.now <= to
    case Begin(id, _) => id !in s.requests
    case Look(id, _) => id in s.requests && s.requests[id].phase.Looking?
    case ProviderReplies(id, _) => id in s.requests && s.requests[id].phase.Querying?
    case Store(id, _) => id in s.requests && s.requests[id].phase.Storing?
    case Evict(_) => true
  }

  function Move(s: State, id: nat, phase: Phase): State
    requires id in s.requests
  {
    s.(requests := s.requests[id := s.requests[id].(phase := phase)])
  }

  /** The end of `verify_token`. */
  function Decide(config: Config, claims: Claims, now: real, source: Source): Phase {
    if Acceptable(config, claims, now) then Accepted(claims, now, source) else Rejected
  }

  predicate Live(e: Entry, now: real) {
    now < e.stored + e.ttl as real
  }

  function Apply(config: Config, s: State, step: Step): State
    requires Enabled(s, step)
  {
    match step
    case Tick(to) => s.(now := to)
    case Begin(id, token) => s.(requests := s.requests[id := Request(token, s.now, Looking)])
    case Look(id, readable) =>
      var token := s.requests[id].token;
      if readable && token in s.entries && Live(s.entries[token], s.now)
      then Move(s, id, Decide(config, s.entries[token].claims, s.now, FromCache(s.entries[token])))
      else Move(s, id, Querying)
    case ProviderReplies(id, reply) =>
      (match reply
       case Answered(claims) =>
         var fact := Fact(s.requests[id].token, claims, s.now);
         var ttl := TtlOf(config, claims, s.now);
         var phase := if ttl > 0 then Storing(fact, ttl) else Decide(config, claims, s.now, FromProvider(fact));
         Move(s, id, phase).(facts := s.facts + [fact])
       case _ => Move(s, id, Rejected))
    case Store(id, stored) =>
      var fact, ttl := s.requests[id].phase.fact, s.requests[id].phase.ttl;
      var t := Move(s, id, Decide(config, fact.claims, s.now, FromProvider(fact)));
      if stored then t.(entries := s.entries[fact.token := Entry(Stored(fact.claims), s.now, ttl, fact)]) else t
    case Evict(tokens) => s.(entries := s.entries - tokens)
  }

  // --- what each step decides -----------------------------------------------------------------

  /** A live readable entry decides: the token is accepted if and only if its claims are active, have a
      subject, are not expired, and are for this audience and issuer. Without one the provider is asked. */
  lemma LookDecides(config: Config, s: State, id: nat, readable: bool)
    requires id in s.requests && s.requests[id].phase == Looking
    ensures var s', token := Apply(config, s, Look(id, readable)), s.requests[id].token;
            && s'.entries == s.entries && s'.facts == s.facts
            && s'.requests[id].phase ==
               if readable && token in s.entries && s.now < s.entries[token].stored + s.entries[token].ttl as real then
                 var c := s.entries[token].claims;
                 if c.active == Yes && c.hasSub && c.exp.Seconds? && c.exp.at > s.now.Floor
                    && config.audience in c.audiences && (config.issuer == None || c.issuer == config.issuer)
                 then Accepted(c, s.now, FromCache(s.entries[token])) else Rejected
               else Querying
  {
  }

  /** What the provider says decides in the same way, at once or after it was stored. */
  lemma ReplyDecides(config: Config, s: State, id: nat, reply: Reply)
    requires id in s.requests && s.requests[id].phase == Querying
    ensures var s', token := Apply(config, s, ProviderReplies(id, reply)), s.requests[id].token;
            && s'.entries == s.entries
            && (!reply.Answered? ==> s'.requests[id].phase == Rejected && s'.facts == s.facts)
            && (reply.Answered? ==>
                  var c := reply.claims;
                  var fact := Fact(token, c, s.now);
                  && s'.facts == s.facts + [fact]
                  && (c.active == No ==> s'.requests[id].phase == Storing(fact, 5))
                  && (c.active != No && config.cacheTtl > 0
                      && (c.exp == NotAnInteger || c.exp.at - s.now.Floor >= config.cacheTtl) ==>
                        s'.requests[id].phase == Storing(fact, config.cacheTtl))
                  && (c.active != No && c.exp.Seconds? && 0 < c.exp.at - s.now.Floor < config.cacheTtl ==>
                        s'.requests[id].phase == Storing(fact, c.exp.at - s.now.Floor))
                  && (c.active != No && c.exp.Seconds? && c.exp.at <= s.now.Floor && config.cacheTtl > 0 ==>
                        s'.requests[id].phase == Rejected))
  {
  }

  lemma StoreDecides(config: Config, s: State, id: nat, stored: bool)
    requires id in s.requests && s.requests[id].phase.Storing?
    ensures var s', fact := Apply(config, s, Store(id, stored)), s.requests[id].phase.fact;
            var c := fact.claims;
            && s'.requests[id].phase ==
               (if c.active == Yes && c.hasSub && c.exp.Seconds? && c.exp.at > s.now.Floor
                   && config.audience in c.audiences && (config.issuer == None || c.issuer == config.issuer)
                then Accepted(c, s.now, FromProvider(fact)) else Rejected)
            && (!stored ==> s'.entries == s.entries)
            && (stored ==>
                  && fact.token in s'.entries
                  && s'.entries[fact.token].stored == s.now && s'.entries[fact.token].ttl == s.requests[id].phase.ttl
                  && (if c.active == No then s'.entries[fact.token].claims.active == No
                      else s'.entries[fact.token].claims == c)
                  && forall t | t != fact.token :: (t in s'.entries <==> t in s.entries)
                                                   && (t in s.entries ==> s'.entries[t] == s.entries[t]))
  {
  }

  ghost predicate IsRun(config: Config, states: seq<State>, steps: seq<Step>) {
    && |states| == |steps| + 1
    && states[0].entries == map[] && states[0].requests == map[] && states[0].facts == []
    && forall i | 0 <= i < |steps| ::
         Enabled(states[i], steps[i]) && states[i + 1] == Apply(config, states[i], steps[i])
  }

  // --- what every step keeps ------------------------------------------------------------------

  ghost predicate Known(s: State, fact: Fact) {
    fact in s.facts && fact.at <= s.now
  }

  /** An entry tells what the provider said about its token, for no longer than it may. */
  ghost predicate Faithful(config: Config, s: State, token: string, e: Entry) {
    && Known(s, e.fact) && e.fact.token == token
    && e.claims == Stored(e.fact.claims)
    && e.fact.at <= e.stored <= s.now
    && 0 < e.ttl && (if e.claims.active.No? then e.ttl <= NEGATIVE_TTL else e.ttl <= config.cacheTtl)
    && (!e.claims.active.No? && e.claims.exp.Seconds? ==> e.ttl <= e.claims.exp.at - Clock(e.fact.at))
  }

  ghost predicate Justified(config: Config, s: State, r: Request) {
    && r.begunAt <= s.now
    && match r.phase
       case Storing(fact, ttl) =>
         && Known(s, fact) && fact.token == r.token && r.begunAt <= fact.at
         && 0 < ttl && (if fact.claims.active.No? then ttl <= NEGATIVE_TTL else ttl <= config.cacheTtl)
         && (!fact.claims.active.No? && fact.claims.exp.Seconds? ==> ttl <= fact.claims.exp.at - Clock(fact.at))
       case Accepted(claims, at, source) =>
         && r.begunAt <= at <= s.now
         && Acceptable(config, claims, at)
         && (match source
             case FromProvider(fact) => Known(s, fact) && fact.token == r.token && fact.claims == claims
                                        && r.begunAt <= fact.at <= at
             case FromCache(e) => Faithful(config, s, r.token, e) && e.claims == claims && e.stored <= at
                                  && Live(e, at))
       case _ => true
  }

  ghost predicate Inv(config: Config, s: State) {
    && (forall token | token in s.entries :: Faithful(config, s, token, s.entries[token]))
    && (forall id | id in s.requests :: Justified(config, s, s.requests[id]))
  }

  lemma FaithfulLasts(config: Config, s: State, step: Step, token: string, e: Entry)
    requires Enabled(s, step) && Faithful(config, s, token, e)
    ensures Faithful(config, Apply(config, s, step), token, e)
  {
  }

  lemma JustifiedLasts(config: Config, s: State, step: Step, r: Request)
    requires Enabled(s, step) && Justified(config, s, r)
    ensures Justified(config, Apply(config, s, step), r)
  {
    match r.phase
    case Accepted(_, _, FromCache(e)) => FaithfulLasts(config, s, step, r.token, e);
    case _ =>
  }

  lemma ActingIsJustified(config: Config, s: State, step: Step)
    requires Inv(config, s) && Enabled(s, step) && !step.Tick? && !step.Evict?
    ensures Justified(config, Apply(config, s, step), Apply(config, s, step).requests[step.id])
  {
    if step.id in s.requests {
      assert Justified(config, s, s.requests[step.id]);
    }
  }

  lemma InvStep(config: Config, s: State, step: Step)
    requires Inv(config, s) && Enabled(s, step)
    ensures Inv(config, Apply(config, s, step))
  {
    var s' := Apply(config, s, step);
    forall id | id in s'.requests ensures Justified(config, s', s'.requests[id]) {
      if !step.Tick? && !step.Evict? && step.id == id {
        ActingIsJustified(config, s, step);
      } else {
        JustifiedLasts(config, s, step, s.requests[id]);
      }
    }
    forall token | token in s'.entries ensures Faithful(config, s', token, s'.entries[token]) {
      if step.Store? {
        assert Justified(config, s, s.requests[step.id]);
      }
      if token in s.entries && s'.entries[token] == s.entries[token] {
        FaithfulLasts(config, s, step, token, s.entries[token]);
      }
    }
  }

  lemma {:induction false} InvRun(config: Config, states: seq<State>, steps: seq<Step>, n: nat)
    requires IsRun(config, states, steps) && n < |states|
    ensures Inv(config, states[n])
    decreases n
  {
    if n > 0 {
      InvRun(config, states, steps, n - 1);
      InvStep(config, states[n - 1], steps[n - 1]);
    }
  }

  // --- the theorems ---------------------------------------------------------------------------------

  /** Over every run: a token is accepted only before its own expiry, for this audience and issuer, on
      the strength of an answer in which the provider called this very token active, and that answer
      was fetched during the call or had been stored less than the cache TTL ago. */
  lemma AcceptedTokensAreActive(config: Config, states: seq<State>, steps: seq<Step>, n: nat, id: nat,
                                claims: Claims, at: real, source: Source)
    requires IsRun(config, states, steps) && n < |states| && id in states[n].requests
    requires states[n].requests[id].phase == Accepted(claims, at, source)
    ensures claims.exp.Seconds? && at.Floor < claims.exp.at && claims.hasSub
    ensures config.audience in claims.audiences && (config.issuer.Some? ==> claims.issuer == config.issuer)
    ensures var fact := if source.FromCache? then source.entry.fact else source.fact;
            && fact in states[n].facts && fact.token == states[n].requests[id].token
            && fact.claims == claims && fact.claims.active == Yes
            && match source {
                 case FromProvider(_) => states[n].requests[id].begunAt <= fact.at <= at
                 case FromCache(e) => fact.at <= e.stored <= at < e.stored + config.cacheTtl as real
               }
  {
    InvRun(config, states, steps, n);
    assert Justified(config, states[n], states[n].requests[id]);
  }

  /** What is in the cache is always a real answer: failed lookups are never stored, and an inactive
      answer lives for at most five seconds. */
  lemma OnlyAnswersAreStored(config: Config, states: seq<State>, steps: seq<Step>, n: nat, token: string)
    requires IsRun(config, states, steps) && n < |states| && token in states[n].entries
    ensures var e := states[n].entries[token];
            && e.fact in states[n].facts && e.fact.token == token
            && (e.claims.active.No? <==> e.fact.claims.active.No?)
            && (e.claims.active.No? ==> e.ttl <= 5)
            && (!e.claims.active.No? ==> e.claims == e.fact.claims && e.ttl <= config.cacheTtl)
            && (!e.claims.active.No? && e.claims.exp.Seconds? ==> e.ttl <= e.claims.exp.at - e.fact.at.Floor)
  {
    InvRun(config, states, steps, n);
  }

  // --- where the entries come from --------------------------------------------------------------

  /** Step `i` stored this entry. */
  ghost predicate StoredBy(states: seq<State>, steps: seq<Step>, e: Entry, i: nat) {
    && i < |steps| && i < |states| && steps[i].Store? && steps[i].stored
    && steps[i].id in states[i].requests && states[i].requests[steps[i].id].phase.Storing?
    && states[i].requests[steps[i].id].phase.fact == e.fact && states[i].now == e.stored
  }

  ghost predicate Traced(states: seq<State>, steps: seq<Step>, e: Entry) {
    exists i :: StoredBy(states, steps, e, i)
  }

  /** Every entry there is, and every entry that a token was accepted on, was stored by some step. */
  lemma {:induction false} EntriesAreStored(config: Config, states: seq<State>, steps: seq<Step>, n: nat)
    requires IsRun(config, states, steps) && n < |states|
    ensures forall token | token in states[n].entries :: Traced(states, steps, states[n].entries[token])
    ensures forall id | id in states[n].requests ::
              var phase := states[n].requests[id].phase;
              phase.Accepted? && phase.source.FromCache? ==> Traced(states, steps, phase.source.entry)
    decreases n
  {
    if n > 0 {
      EntriesAreStored(config, states, steps, n - 1);
      var s, step := states[n - 1], steps[n - 1];
      assert states[n] == Apply(config, s, step);
      forall token | token in states[n].entries ensures Traced(states, steps, states[n].entries[token]) {
        if step.Store? && step.stored && token == s.requests[step.id].phase.fact.token {
          assert StoredBy(states, steps, states[n].entries[token], n - 1);
        }
      }
    }
  }

  /** Revocation: once the provider stops calling a token active, it is accepted no longer than the
      cache TTL after the last moment at which an answer from before was stored. */
  lemma RevocationIsBounded(config: Config, states: seq<State>, steps: seq<Step>, n: nat, id: nat,
                            claims: Claims, at: real, source: Source, revokedAt: real, storedBy: real)
    requires IsRun(config, states, steps) && n < |states| && id in states[n].requests
    requires states[n].requests[id].phase == Accepted(claims, at, source)
    requires forall f | f in states[n].facts && f.token == states[n].requests[id].token && f.at >= revokedAt ::
               f.claims.active.No?
    requires states[n].requests[id].begunAt >= revokedAt
    requires forall i | 0 <= i < |steps| ::
               StoresAnswerFrom(states, steps, i, states[n].requests[id].token, revokedAt) ==> states[i].now <= storedBy
    ensures at < storedBy + config.cacheTtl as real
  {
    AcceptedTokensAreActive(config, states, steps, n, id, claims, at, source);
    EntriesAreStored(config, states, steps, n);
    if source.FromCache? {
      var i: nat :| StoredBy(states, steps, source.entry, i);
      assert StoresAnswerFrom(states, steps, i, states[n].requests[id].token, revokedAt);
    }
  }

  /** Step `i` stores an answer about `token` that the provider gave before `before`. */
  ghost predicate StoresAnswerFrom(states: seq<State>, steps: seq<Step>, i: nat, token: string, before: real) {
    && i < |steps| && i < |states| && steps[i].Store? && steps[i].stored
    && steps[i].id in states[i].requests && states[i].requests[steps[i].id].phase.Storing?
    && var fact := states[i].requests[steps[i].id].phase.fact; fact.token == token && fact.at < before
  }
}
