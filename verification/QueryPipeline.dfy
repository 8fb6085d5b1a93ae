/** One call of a query tool, from the permission checks to the audit entry, as a trace of what it did
    to the outside world. Everything outside (stores, adapter, validator) answers or fails as it likes. */
module QueryPipeline {
  import opened Results

  datatype Error =
    | ToolNotPermitted
    | ConnectionNotFound
    | TableNotFound(table: string)
    | InvalidArgument
    | AuditWriteError
    | Failure(what: string) // anything else that the outside raises

  datatype Action = Execute(sql: string, maxRows: int) | Explain(sql: string) | Sample(table: string, n: int)

  datatype Entry = Entry(tool: string, connection: string, tables: seq<string>, rowCount: Option<nat>,
                         error: Option<Error>)

  /** What a call did, in order. */
  datatype Event =
    | ToolChecked(tool: string, ok: bool)
    | ConnectionChecked(connection: string, ok: bool)
    | GrantsLoaded(ok: bool)
    | AdapterOpened(ok: bool)
    | RangeChecked(ok: bool)
    | SqlValidated(tables: seq<string>, ok: bool)
    | TableChecked(table: string, ok: bool)
    | Reached(action: Action)
    | Audited(entry: Entry, stored: bool)

  datatype Limits = Limits(defaultRows: int, maxRows: int, maxSampleRows: int)

  /** The SQL to send and the tables it reads, sorted. */
  datatype Query = Query(sql: string, tables: seq<string>)

  /** How the outside answers this call. */
  datatype World = World(
    allowedTools: Result<set<string>, Error>,
    connectionExists: Result<bool, Error>,
    allowedTables: Result<set<string>, Error>,
    adapter: Result<bool, Error>,
    validated: Result<Query, Error>,
    answer: Result<seq<string>, Error>,
    auditStored: bool,
    fold: string -> string)

  datatype Request =
    | RunQuery(connection: string, rowLimit: Option<int>)
    | ExplainQuery(connection: string)
    | GetSampleRows(connection: string, table: string, n: int)

  function ToolOf(r: Request): string {
    match r
    case RunQuery(_, _) => "run_query"
    case ExplainQuery(_) => "explain_query"
    case GetSampleRows(_, _, _) => "get_sample_rows"
  }

  // --- which calls are refused, and why ---------------------------------------------------------

  predicate InRange(r: Request, limits: Limits) {
    match r
    case RunQuery(_, rowLimit) => rowLimit.Some? ==> 1 <= rowLimit.value <= limits.maxRows
    case ExplainQuery(_) => true
    case GetSampleRows(_, _, n) => 1 <= n <= limits.maxSampleRows
  }

  /** The first table in the list that the caller may not see is the one an error names. */
  function FirstRefused(world: World, granted: set<string>, names: seq<string>): Option<Error> {
    if names == [] then None
    else if !Allows(world, granted, names[0]) then Some(TableNotFound(names[0]))
    else FirstRefused(world, granted, names[1..])
  }

  function OpenRefusal(world: World, r: Request): Option<Error> {
    if world.allowedTools.Err? then Some(world.allowedTools.error)
    else if ToolOf(r) !in world.allowedTools.value then Some(ToolNotPermitted)
    else if world.connectionExists.Err? then Some(world.connectionExists.error)
    else if !world.connectionExists.value then Some(ConnectionNotFound)
    else if world.allowedTables.Err? then Some(world.allowedTables.error)
    else if world.adapter.Err? then Some(world.adapter.error)
    else None
  }

  function ClearRefusal(world: World, r: Request, limits: Limits, granted: set<string>): Option<Error> {
    if !InRange(r, limits) then Some(InvalidArgument)
    else if !r.GetSampleRows? && world.validated.Err? then Some(world.validated.error)
    else FirstRefused(world, granted, TablesOf(world, r))
  }

  function Refusal(world: World, r: Request, limits: Limits): Option<Error> {
    if OpenRefusal(world, r).Some? || world.allowedTables.Err? then OpenRefusal(world, r)
    else ClearRefusal(world, r, limits, world.allowedTables.value)
  }

  /** Everything a call needs, in no particular order. */
  ghost predicate Passes(world: World, r: Request, limits: Limits) {
    && world.allowedTools.Ok? && ToolOf(r) in world.allowedTools.value
    && world.connectionExists == Ok(true) && world.adapter.Ok?
    && InRange(r, limits)
    && (r.GetSampleRows? || world.validated.Ok?)
    && world.allowedTables.Ok? && forall t | t in TablesOf(world, r) :: Allows(world, world.allowedTables.value, t)
  }

  lemma {:induction false} FirstRefusedIff(world: World, granted: set<string>, names: seq<string>)
    ensures FirstRefused(world, granted, names).None? <==> forall t | t in names :: Allows(world, granted, t)
    ensures FirstRefused(world, granted, names).Some? ==>
              exists i :: 0 <= i < |names| && FirstRefused(world, granted, names) == Some(TableNotFound(names[i]))
                          && !Allows(world, granted, names[i])
                          && forall j | 0 <= j < i :: Allows(world, granted, names[j])
  {
    if names != [] {
      FirstRefusedIff(world, granted, names[1..]);
      assert names == [names[0]] + names[1..];
      if Allows(world, granted, names[0]) && FirstRefused(world, granted, names[1..]).Some? {
        var rest := names[1..];
        var i :| 0 <= i < |rest| && FirstRefused(world, granted, rest) == Some(TableNotFound(rest[i]))
                 && !Allows(world, granted, rest[i]) && forall j | 0 <= j < i :: Allows(world, granted, rest[j]);
        assert names[i + 1] == rest[i];
        forall j | 0 <= j < i + 1 ensures Allows(world, granted, names[j]) {
          if j > 0 { assert names[j] == rest[j - 1]; }
        }
      }
    }
  }

  /** A call is let through exactly when it passes every check. */
  lemma RefusedIff(world: World, r: Request, limits: Limits)
    ensures Refusal(world, r, limits).None? <==> Passes(world, r, limits)
  {
    if world.allowedTables.Ok? {
      FirstRefusedIff(world, world.allowedTables.value, TablesOf(world, r));
    }
  }

  /** The refusals spelled out: the first of these that applies is the one that is given. */
  lemma RefusalsSpelled(world: World, r: Request, limits: Limits)
    ensures var tool := if r.RunQuery? then "run_query"
                        else if r.ExplainQuery? then "explain_query" else "get_sample_rows";
            var mayUse := world.allowedTools.Ok? && tool in world.allowedTools.value;
            var found := mayUse && world.connectionExists == Ok(true);
            var loaded := found && world.allowedTables.Ok?;
            var open := loaded && world.adapter.Ok?;
            && (world.allowedTools.Err? ==> Refusal(world, r, limits) == Some(world.allowedTools.error))
            && (world.allowedTools.Ok? && tool !in world.allowedTools.value ==>
                  Refusal(world, r, limits) == Some(ToolNotPermitted))
            && (mayUse && world.connectionExists.Err? ==>
                  Refusal(world, r, limits) == Some(world.connectionExists.error))
            && (mayUse && world.connectionExists == Ok(false) ==> Refusal(world, r, limits) == Some(ConnectionNotFound))
            && (found && world.allowedTables.Err? ==> Refusal(world, r, limits) == Some(world.allowedTables.error))
            && (loaded && world.adapter.Err? ==> Refusal(world, r, limits) == Some(world.adapter.error))
            && (open ==> RefusalInOpen(world, r, limits, world.allowedTables.value))
  {
    if OpenRefusal(world, r) == None && world.allowedTables.Ok? {
      InOpenSpelled(world, r, limits, world.allowedTables.value);
    }
  }

  /** The checks that come after the connection is open. */
  ghost predicate RefusalInOpen(world: World, r: Request, limits: Limits, granted: set<string>) {
    var inRange := match r
                   case RunQuery(_, limit) => limit == None || 1 <= limit.value <= limits.maxRows
                   case ExplainQuery(_) => true
                   case GetSampleRows(_, _, n) => 1 <= n <= limits.maxSampleRows;
    var parsed := inRange && (r.GetSampleRows? || world.validated.Ok?);
    && (!inRange ==> Refusal(world, r, limits) == Some(InvalidArgument))
    && (inRange && !r.GetSampleRows? && world.validated.Err? ==>
          Refusal(world, r, limits) == Some(world.validated.error))
    && (parsed ==> RefusesFirst(world, granted, if r.GetSampleRows? then [r.table] else world.validated.value.tables,
                                Refusal(world, r, limits)))
  }

  /** The first name that no granted one is equal to up to case is refused; without one, nothing is. */
  ghost predicate RefusesFirst(world: World, granted: set<string>, names: seq<string>, refusal: Option<Error>) {
    && (forall i | 0 <= i < |names|
                   && (forall t | t in granted :: world.fold(t) != world.fold(names[i]))
                   && (forall j | 0 <= j < i :: exists t :: t in granted && world.fold(t) == world.fold(names[j])) ::
          refusal == Some(TableNotFound(names[i])))
    && ((forall i | 0 <= i < |names| :: exists t :: t in granted && world.fold(t) == world.fold(names[i])) ==>
          refusal == None)
  }

  lemma InOpenSpelled(world: World, r: Request, limits: Limits, granted: set<string>)
    requires OpenRefusal(world, r) == None && world.allowedTables == Ok(granted)
    ensures RefusalInOpen(world, r, limits, granted)
  {
    NamesSpelled(world, granted, TablesOf(world, r));
  }

  lemma NamesSpelled(world: World, granted: set<string>, names: seq<string>)
    ensures RefusesFirst(world, granted, names, FirstRefused(world, granted, names))
  {
    FirstRefusedIff(world, granted, names);
    forall i | 0 <= i < |names|
               && (forall t | t in granted :: world.fold(t) != world.fold(names[i]))
               && (forall j | 0 <= j < i :: exists t :: t in granted && world.fold(t) == world.fold(names[j]))
      ensures FirstRefused(world, granted, names) == Some(TableNotFound(names[i]))
    {
      FirstRefusedAt(world, granted, names, i);
    }
  }

  lemma {:induction false} FirstRefusedAt(world: World, granted: set<string>, names: seq<string>, i: nat)
    requires i < |names| && !Allows(world, granted, names[i])
    requires forall j | 0 <= j < i :: Allows(world, granted, names[j])
    ensures FirstRefused(world, granted, names) == Some(TableNotFound(names[i]))
  {
    if i > 0 {
      assert names[1..][i - 1] == names[i] && forall j | 0 <= j < i - 1 :: names[1..][j] == names[j + 1];
      FirstRefusedAt(world, granted, names[1..], i - 1);
    }
  }

  // --- what a trace must look like ------------------------------------------------------------

  predicate Quiet(e: Event) {
    !e.Reached? && !e.Audited?
  }

  /** A check, after which nothing more is known about the tables. */
  predicate Plain(e: Event) {
    Quiet(e) && !e.SqlValidated?
  }

  /** The range and table checks that concern an action. */
  ghost predicate Permitted(world: World, r: Request, limits: Limits, before: seq<Event>, action: Action) {
    match r
    case RunQuery(_, rowLimit) =>
      && action.Execute? && RangeChecked(true) in before
      && (rowLimit.Some? ==> 1 <= action.maxRows == rowLimit.value <= limits.maxRows)
      && (rowLimit.None? ==> action.maxRows == limits.defaultRows)
      && world.validated.Ok? && action.sql == world.validated.value.sql
      && AllAllowed(world, before, world.validated.value.tables)
    case ExplainQuery(_) =>
      && action.Explain? && world.validated.Ok? && action.sql == world.validated.value.sql
      && AllAllowed(world, before, world.validated.value.tables)
    case GetSampleRows(_, table, n) =>
      && action == Sample(table, n) && RangeChecked(true) in before && 1 <= n <= limits.maxSampleRows
      && AllAllowed(world, before, [table])
  }

  /** An action reached the adapter only after every check that concerns it was passed. */
  ghost predicate Cleared(world: World, r: Request, limits: Limits, before: seq<Event>, action: Action) {
    && ToolChecked(ToolOf(r), true) in before && world.allowedTools.Ok? && ToolOf(r) in world.allowedTools.value
    && ConnectionChecked(r.connection, true) in before && world.connectionExists == Ok(true)
    && AdapterOpened(true) in before
    && Permitted(world, r, limits, before, action)
  }

  ghost predicate AllAllowed(world: World, before: seq<Event>, tables: seq<string>) {
    && world.allowedTables.Ok?
    && forall t | t in tables :: TableChecked(t, true) in before && Allows(world, world.allowedTables.value, t)
  }

  predicate Allows(world: World, granted: set<string>, table: string) {
    exists t | t in granted :: world.fold(t) == world.fold(table)
  }

  /** The whole trace of a call and its outcome. */
  ghost predicate Accountable(world: World, r: Request, limits: Limits, trace: seq<Event>,
                              result: Result<seq<string>, Error>) {
    // Exactly one audit write is attempted, and it is the last thing that happens.
    && trace != [] && trace[|trace| - 1].Audited?
    && (forall i | 0 <= i < |trace| - 1 :: !trace[i].Audited?)
    // The adapter is reached at most once, and only when everything was allowed.
    && (forall i | 0 <= i < |trace| && trace[i].Reached? ::
         i == |trace| - 2 && Cleared(world, r, limits, trace[..i], trace[i].action))
    && var last := trace[|trace| - 1];
       // The entry tells the tables a query reads as soon as they are known, refused or not.
       && (forall i | 0 <= i < |trace| && trace[i].SqlValidated? :: last.entry.tables == trace[i].tables)
       && last.stored == world.auditStored && last.entry.tool == ToolOf(r) && last.entry.connection == r.connection
       && match result
          // A result is released only if a success entry that tells of it was stored.
          case Ok(rows) =>
            && last.stored && last.entry.error == None
            && world.answer == Ok(rows) && |trace| >= 2 && trace[|trace| - 2].Reached?
            && (!r.ExplainQuery? ==> last.entry.rowCount == Some(|rows|))
            && last.entry.tables == TablesOf(world, r)
          // An error is the original one, which the entry names, unless there was none and the entry was lost.
          case Err(e) => if last.entry.error.Some? then e == last.entry.error.value
                         else e == AuditWriteError && !last.stored
  }

  /** The body of a tool answers what the adapter does unless the call is refused. */
  ghost predicate Released(world: World, r: Request, limits: Limits, result: Result<seq<string>, Error>) {
    result == match Refusal(world, r, limits) case Some(e) => Err(e) case None => world.answer
  }

  /** The tables a call reads. */
  function TablesOf(world: World, r: Request): seq<string> {
    if r.GetSampleRows? then [r.table] else if world.validated.Ok? then world.validated.value.tables else []
  }

  lemma ReachedLast(world: World, r: Request, limits: Limits, before: seq<Event>, action: Action)
    requires (forall i | 0 <= i < |before| :: Quiet(before[i])) && Cleared(world, r, limits, before, action)
    ensures var trace := before + [Reached(action)];
            && (forall i | 0 <= i < |trace| :: !trace[i].Audited?)
            && (forall i | 0 <= i < |trace| && trace[i].Reached? ::
                  i == |trace| - 1 && Cleared(world, r, limits, trace[..i], trace[i].action))
  {
    assert (before + [Reached(action)])[..|before|] == before;
  }

  // --- the call -----------------------------------------------------------------------------------

  class ToolCall {
    const world: World
    const limits: Limits
    const request: Request
    var trace: seq<Event>
    var tables: seq<string>
    var rowCount: Option<nat>

    constructor (world: World, limits: Limits, request: Request)
      ensures this.world == world && this.limits == limits && this.request == request
      ensures trace == [] && tables == [] && rowCount == None
    {
      this.world, this.limits, this.request := world, limits, request;
      trace, tables, rowCount := [], [], None;
    }

    /** The tool, the connection, the caller's tables on it, and a live adapter. */
    method Open() returns (granted: Result<set<string>, Error>)
      requires trace == []
      modifies `trace
      ensures forall i | 0 <= i < |trace| :: Plain(trace[i])
      ensures granted.Ok? ==>
                && ToolChecked(ToolOf(request), true) in trace
                && world.allowedTools.Ok? && ToolOf(request) in world.allowedTools.value
                && ConnectionChecked(request.connection, true) in trace && world.connectionExists == Ok(true)
                && AdapterOpened(true) in trace && granted == world.allowedTables
      ensures granted == match OpenRefusal(world, request) case Some(e) => Err(e) case None => world.allowedTables
    {
      if world.allowedTools.Err? {
        return Err(world.allowedTools.error);
      }
      trace := trace + [ToolChecked(ToolOf(request), ToolOf(request) in world.allowedTools.value)];
      if ToolOf(request) !in world.allowedTools.value {
        return Err(ToolNotPermitted);
      }
      if world.connectionExists.Err? {
        return Err(world.connectionExists.error);
      }
      trace := trace + [ConnectionChecked(request.connection, world.connectionExists.value)];
      if !world.connectionExists.value {
        return Err(ConnectionNotFound);
      }
      trace := trace + [GrantsLoaded(world.allowedTables.Ok?)];
      if world.allowedTables.Err? {
        return Err(world.allowedTables.error);
      }
      trace := trace + [AdapterOpened(world.adapter.Ok?)];
      if world.adapter.Err? {
        return Err(world.adapter.error);
      }
      return world.allowedTables;
    }

    method CheckTables(granted: set<string>, names: seq<string>) returns (refused: Option<Error>)
      modifies `trace
      ensures old(trace) <= trace && forall i | |old(trace)| <= i < |trace| :: Plain(trace[i])
      ensures forall e | e in old(trace) :: e in trace
      ensures refused == FirstRefused(world, granted, names)
      ensures refused.None? ==> forall t | t in names :: TableChecked(t, true) in trace && Allows(world, granted, t)
    {
      for i := 0 to |names|
        invariant FirstRefused(world, granted, names) == FirstRefused(world, granted, names[i..])
        invariant old(trace) <= trace && forall k | |old(trace)| <= k < |trace| :: Plain(trace[k])
        invariant forall e | e in old(trace) :: e in trace
        invariant forall k | 0 <= k < i :: TableChecked(names[k], true) in trace && Allows(world, granted, names[k])
      {
        var ok := Allows(world, granted, names[i]);
        assert names[i..][0] == names[i] && names[i..][1..] == names[i + 1..];
        trace := trace + [TableChecked(names[i], ok)];
        if !ok {
          return Some(TableNotFound(names[i]));
        }
      }
      return None;
    }

    /** The recorded tables are those of the query even when the caller may not see them. */
    method ValidateAndAuthorize(granted: set<string>) returns (query: Result<Query, Error>)
      modifies `trace, `tables
      ensures old(trace) <= trace && forall i | |old(trace)| <= i < |trace| :: Quiet(trace[i])
      ensures forall i | |old(trace)| <= i < |trace| && trace[i].SqlValidated? :: tables == trace[i].tables
      ensures forall e | e in old(trace) :: e in trace
      ensures query == if world.validated.Err? then world.validated
                       else match FirstRefused(world, granted, world.validated.value.tables)
                            case Some(e) => Err(e)
                            case None => world.validated
      ensures query.Ok? ==> tables == query.value.tables
      ensures query.Ok? ==>
                forall t | t in query.value.tables :: TableChecked(t, true) in trace && Allows(world, granted, t)
    {
      if world.validated.Err? {
        return Err(world.validated.error);
      }
      tables := world.validated.value.tables;
      trace := trace + [SqlValidated(tables, true)];
      var refused := CheckTables(granted, tables);
      if refused.Some? {
        return Err(refused.value);
      }
      return world.validated;
    }

    /** `limits` hold whatever the operator configured; None asks for the default. */
    method ResolveRowLimit(requested: Option<int>) returns (limit: Result<int, Error>)
      modifies `trace
      ensures old(trace) <= trace && forall i | |old(trace)| <= i < |trace| :: Plain(trace[i])
      ensures forall e | e in old(trace) :: e in trace
      ensures limit.Ok? ==> RangeChecked(true) in trace
      ensures limit == if requested.None? then Ok(limits.defaultRows)
                       else if 1 <= requested.value <= limits.maxRows then Ok(requested.value)
                       else Err(InvalidArgument)
    {
      if requested.None? {
        trace := trace + [RangeChecked(true)];
        return Ok(limits.defaultRows);
      }
      trace := trace + [RangeChecked(1 <= requested.value <= limits.maxRows)];
      if !(1 <= requested.value <= limits.maxRows) {
        return Err(InvalidArgument);
      }
      return Ok(requested.value);
    }

    /** What comes between opening the connection and reaching the adapter, tool by tool. */
    method Clear(granted: set<string>) returns (action: Result<Action, Error>)
      modifies `trace, `tables
      ensures old(trace) <= trace && forall i | |old(trace)| <= i < |trace| :: Quiet(trace[i])
      ensures forall i | |old(trace)| <= i < |trace| && trace[i].SqlValidated? :: tables == trace[i].tables
      ensures forall e | e in old(trace) :: e in trace
      ensures action.Ok? && world.allowedTables == Ok(granted) ==>
                Permitted(world, request, limits, trace, action.value)
      ensures action.Ok? ==> tables == TablesOf(world, request)
      ensures match ClearRefusal(world, request, limits, granted)
              case Some(e) => action == Err(e)
              case None => action.Ok?
    {
      match request {
        case RunQuery(_, rowLimit) =>
          var limit := ResolveRowLimit(rowLimit);
          if limit.Err? {
            return Err(limit.error);
          }
          var query := ValidateAndAuthorize(granted);
          if query.Err? {
            return Err(query.error);
          }
          return Ok(Execute(query.value.sql, limit.value));
        case ExplainQuery(_) =>
          var query := ValidateAndAuthorize(granted);
          if query.Err? {
            return Err(query.error);
          }
          return Ok(Explain(query.value.sql));
        case GetSampleRows(_, table, n) =>
          trace := trace + [RangeChecked(1 <= n <= limits.maxSampleRows)];
          if !(1 <= n <= limits.maxSampleRows) {
            return Err(InvalidArgument);
          }
          var refused := CheckTables(granted, [table]);
          if refused.Some? {
            return Err(refused.value);
          }
          tables := [table];
          return Ok(Sample(table, n));
      }
    }

    /** The body of the tool, inside the audit record. */
    method Body() returns (result: Result<seq<string>, Error>)
      requires trace == [] && tables == [] && rowCount == None
      modifies this
      ensures forall i | 0 <= i < |trace| :: !trace[i].Audited?
      ensures forall i | 0 <= i < |trace| && trace[i].SqlValidated? :: tables == trace[i].tables
      ensures forall i | 0 <= i < |trace| && trace[i].Reached? ::
                i == |trace| - 1 && Cleared(world, request, limits, trace[..i], trace[i].action)
      ensures Released(world, request, limits, result)
      ensures trace != [] && trace[|trace| - 1].Reached? <==> Refusal(world, request, limits).None?
      ensures result.Ok? ==>
                && world.answer == result && trace != [] && trace[|trace| - 1].Reached?
                && tables == TablesOf(world, request)
                && (!request.ExplainQuery? ==> rowCount == Some(|result.value|))
    {
      var granted := Open();
      if granted.Err? {
        return Err(granted.error);
      }
      ghost var checked := trace;
      var action := Clear(granted.value);
      assert forall i | 0 <= i < |checked| :: trace[i] == checked[i];
      if action.Err? {
        return Err(action.error);
      }
      result := Reach(action.value);
    }

    /** The action itself, after all the checks. */
    method Reach(action: Action) returns (result: Result<seq<string>, Error>)
      requires (forall i | 0 <= i < |trace| :: Quiet(trace[i])) && Cleared(world, request, limits, trace, action)
      requires rowCount == None
      modifies `trace, `rowCount
      ensures trace == old(trace) + [Reached(action)] && result == world.answer
      ensures rowCount == if result.Ok? && !request.ExplainQuery? then Some(|result.value|) else None
      ensures forall i | 0 <= i < |trace| :: !trace[i].Audited?
      ensures forall i | 0 <= i < |trace| && trace[i].Reached? ::
                i == |trace| - 1 && Cleared(world, request, limits, trace[..i], trace[i].action)
    {
      ReachedLast(world, request, limits, trace, action);
      trace := trace + [Reached(action)];
      if world.answer.Err? {
        return Err(world.answer.error);
      }
      if !request.ExplainQuery? {
        rowCount := Some(|world.answer.value|);
      }
      return world.answer;
    }

    /** The whole call: the body, then one audit entry whatever happened, and no result without it. */
    method Run() returns (result: Result<seq<string>, Error>)
      requires trace == [] && tables == [] && rowCount == None
      modifies this
      ensures Accountable(world, request, limits, trace, result)
      // It is the adapter's answer, or the first error there was; a lost entry only withholds answers.
      ensures result == match Refusal(world, request, limits)
                        case Some(e) => Err(e)
                        case None =>
                          if world.answer.Ok? && !world.auditStored then Err(AuditWriteError) else world.answer
      ensures |trace| >= 2 && trace[|trace| - 2].Reached? <==> Passes(world, request, limits)
      // The entry says which tool was used.
      ensures trace != [] && trace[|trace| - 1].Audited?
              && trace[|trace| - 1].entry.tool == (match request case RunQuery(_, _) => "run_query"
                                                   case ExplainQuery(_) => "explain_query"
                                                   case GetSampleRows(_, _, _) => "get_sample_rows")
    {
      RefusedIff(world, request, limits);
      var outcome := Body();
      var failure := if outcome.Err? then Some(outcome.error) else None;
      var entry := Entry(ToolOf(request), request.connection, tables, rowCount, failure);
      ghost var before := trace;
      trace := trace + [Audited(entry, world.auditStored)];
      assert forall i | 0 <= i < |before| :: trace[i] == before[i] && trace[..i] == before[..i];
      if !world.auditStored && failure.None? {
        return Err(AuditWriteError);
      }
      return outcome;
    }
  }

  /** A call whose entry could not be written, or that was refused anywhere, releases nothing. */
  lemma NothingUnrecordedIsReleased(world: World, r: Request, limits: Limits, trace: seq<Event>,
                                    result: Result<seq<string>, Error>)
    requires Accountable(world, r, limits, trace, result) && result.Ok?
    ensures world.auditStored && world.answer == result
    ensures forall t | t in TablesOf(world, r) :: world.allowedTables.Ok? && Allows(world, world.allowedTables.value, t)
    ensures exists i :: 0 <= i < |trace| - 1 && trace[i].Reached?
  {
    var i := |trace| - 2;
    assert trace[i].Reached?;
    assert Cleared(world, r, limits, trace[..i], trace[i].action);
  }
}
