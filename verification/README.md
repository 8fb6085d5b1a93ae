# What this project proves about the SQL data layer

The repository lets AI callers query databases through a server that checks, caches and audits
every call, and lets administrators edit permissions in a grid. This project models the parts
where a small mistake would be hard to see, and proves what they are for:

* **The masking scanner** of the query validator (`SqlText`, `SqlTokens`, `SqlScanner`, `SqlSections`,
  `SqlMaskLaws`, `SqlPayload`, `SqlShapes`, `SqlTextCheck`, `SqlEngines`). `SqlTokens` says without any scanning what comments,
  quoted sections and code are; the loops of `SqlScanner` are proved to find exactly that. On top of it:
  masking is idempotent, the words of the mask are the words of the code, quoted text cannot influence
  the mask, and what was checked is what is sent. `SqlEngines` says which texts it
  reads as each engine does.
* **Versioned cache invalidation** (`RedisCache`, `CacheProtocol`, `CacheKeys`). The client with its circuit
  breaker is a class; lookups, administrators, faults, evictions and restarts are a step system, and
  freshness and bounded staleness hold over all its runs. Keys never mix.
* **Staged permission editing, end to end** (`Subjects`, `Separators`, `Staging`, `StagedGrid`, `GridSave`,
  `GridSessions`, `GridAcceptance`, `BrokenSaves`, `GrantApi`, `AdminLog`): from a toggled cell through the requests to the rows in the database, under
  lost requests and replies, and from the admin log back to the grants.
* **Clocked authentication caches** (`SigningKeys`, `Introspection`): every interleaving of requests at
  their await points, with the clock moving.
* **The services over an adapter** (`SchemaService`, `SchemaCache`, `QueryPipeline`, `ConnectionRegistry`):
  hidden tables do not influence answers, the schema cache is transparent exactly when names fold
  apart, a call's trace is accountable, and adapters are closed once.

Code that updates state is modelled by classes and loops whose contracts tie them to specification
functions and state the outcome outright; protocols are step functions with runs. Wherever a function is
what a body and its specification share, a lemma or a contract spells out in the terms of the inputs alone
what it comes to: `SqlShapes` for the mask, and members named `...Spelled`, `...Decides` or `...Iff`.

Library functions whose tables are not part of this model are parameters: the character classes behind
`isalnum` and `isspace` (`Sane` lists the facts used), the keyword patterns, case folding, the hashes, the
sanitizer and the parser. A loader's answer is a function of the key and of how many commits the
database has seen. Clock readings, lost messages and outcomes of calls are inputs.

## Where the code does less than its documentation says

* "Anything that can't be interpreted the same way by every engine is rejected"
  (`services/query_validator.py:178-180`) does not hold. For whatever rules an engine has for comments and
  quotes, an accepted text is cut into the same tokens by both if and only if it has no token on which the
  rules part (`SqlEngines.ReadsAlikeIff`). With the documented rules of each engine these are: for PostgreSQL
  nesting comments, carriage returns in line comments, backticks, dollar sections inside names and wider
  dollar tags; for MySQL dollar sections, for MariaDB also comments that it runs; for SQL Server dollar
  sections, backticks and nesting comments; for SQLite dollar sections and brackets. There is a lemma and an
  example for each engine.
* "Two callers only ever share an entry if they are granted through exactly the same user id and roles"
  (`cache/helpers.py:45-50`): two lists have the same text if and only if their labels in order, cut at
  every newline that is followed by `user:` or `role:`, give the same pieces (`CacheKeys.SameTextIff`).
  Without such newlines that is the promise (`CacheKeys.FingerprintTextIff`); with one it can fail
  (`CacheKeys.BreaksMakeTextAmbiguous`).
* "Changes are effective immediately" holds for announcements that get through as long as Redis does not
  come back with an older version, and no lookup that began before it came back empty stores its answer
  afterwards (`CacheProtocol.ChangesAreEffectiveImmediately`). Either can put an old answer under a version
  that is current again (`CacheProtocol.ReloadBreaksFreshness`, `CacheProtocol.RestartBreaksFreshness`,
  `CacheProtocol.StoredAnswerIsFreshIff`); what is left then is the TTL
  (`CacheProtocol.AnswersAreRealAndBounded`).
* "Refetch the key set at most this often" (`auth/token_verifier.py:36-38`): after a refresh has ended, the
  next request that the held keys do not serve starts another one within the interval if and only if the
  refresh failed or brought no keys (`SigningKeys.RefetchedWithinIntervalIff`), so a failing provider is
  asked again at once, also while keys are held (`SigningKeys.NotThrottledWhileKeysAreHeld`).
* Toggles made while a save is in flight are dropped when it succeeds, neither saved nor pending
  (`StagedGrid.CellStagedDuringSaveIsLost`): then nothing is lost if and only if they left what is staged as
  it was (`GridSessions.NothingIsLostIff`). When it fails the map is kept, but what was carried out is in
  effect without the screen knowing. A later save ends as the screen showed if and only if it sets every cell
  again that the failed one carried out (`BrokenSaves.LaterSaveMendsIff`), and a table cell that was toggled
  back in between is not (`GridSessions.ToggledBackStaysGranted`). If the changes are discarded instead, "what you
  see is what is in effect" (`StagedBar.tsx:43`) if and only if no request was carried out
  (`BrokenSaves.DiscardedScreenIsTrueIff`).
* A save from an old grid puts back the old list of who may use the connection, exactly when a use cell was
  touched and the lists differ (`GridSave.UntouchedUseSurvivesIff`). Which staged changes can be saved at all
  is `GridAcceptance.SaveIsAcceptedIff`; a row with more than 2000 tables, say, is refused however often it
  is retried. A table named `__use__` is never changed by the grid, which shows the use column in its place
  (`GridSave.TableNamedUseIff`).
* The schema cache can answer one table with another when two names differ only by case
  (`SchemaCache.CacheIsTransparentIff`).

## Model

| member | source | states |
|---|---|---|
| SqlText.FindIsFirst | mcp-server/mcp_sql_server/services/query_validator.py:200 | the search the scanner relies on gives the first occurrence, or says that there is none |
| SqlText.StripsCommute | mcp-server/mcp_sql_server/services/query_validator.py:91 | trimming the right end first or the left end first is the same |
| SqlScanner.SkipQuoted | mcp-server/mcp_sql_server/services/query_validator.py:230-248 | the skipping loop ends at the index, or with the refusal, of the quoted-section specification |
| SqlScanner.TakeSection | mcp-server/mcp_sql_server/services/query_validator.py:185-221 | one turn of the masking loop takes the specified token, moves the index to its end and appends its one character |
| SqlScanner.MaskCommentsAndQuotes | mcp-server/mcp_sql_server/services/query_validator.py:172-222 | the masking loop terminates with exactly the mask, or exactly the refusal, of the scan |
| SqlScanner.MaskFromIsRenderedScan | mcp-server/mcp_sql_server/services/query_validator.py:182-222 | the mask is the list of tokens with one character for each |
| SqlSections.QuoteEndSound | mcp-server/mcp_sql_server/services/query_validator.py:230-248 | whatever is skipped as quoted text is some payload without backslashes, its closing quotes doubled |
| SqlSections.QuoteEndComplete | mcp-server/mcp_sql_server/services/query_validator.py:230-248 | writing any payload without backslashes with its closing quotes doubled is skipped exactly to its end |
| SqlSections.QuotedIff | mcp-server/mcp_sql_server/services/query_validator.py:205-207 | a quoted span is taken if and only if it is a written payload not followed by its closing character |
| SqlSections.BlockCommentIff | mcp-server/mcp_sql_server/services/query_validator.py:197-204 | a block comment is taken if and only if it is one, closed by the first closing pair and not executable |
| SqlSections.LineEndIff | mcp-server/mcp_sql_server/services/query_validator.py:225-227 | a line comment runs to the newline or the end, and no further |
| SqlSections.MatchTagIff | mcp-server/mcp_sql_server/services/query_validator.py:61 | the tag pattern matches at a place exactly what is a dollar tag there, and there is at most one |
| SqlSections.DollarSectionIff | mcp-server/mcp_sql_server/services/query_validator.py:208-218 | a dollar is code when no tag starts there, and otherwise its section ends with the first further copy of the tag |
| SqlSections.StepIff | mcp-server/mcp_sql_server/services/query_validator.py:184-221 | the scanner takes a span at an index if and only if that span is a comment, quoted section or code character |
| SqlSections.MaskIff | mcp-server/mcp_sql_server/services/query_validator.py:172-222 | a text is accepted if and only if tokens tile it, there is only one such tiling, and the mask has one character for each token |
| SqlMaskLaws.MaskIsAllCode | mcp-server/mcp_sql_server/services/query_validator.py:172-222 | nothing in a mask opens a comment, quoted text or a dollar section |
| SqlMaskLaws.MaskIsIdempotent | mcp-server/mcp_sql_server/services/query_validator.py:172-222 | masking a mask is never refused and changes nothing, for every dialect |
| SqlMaskLaws.WordsOfMaskAreWordsOfCode | mcp-server/mcp_sql_server/services/query_validator.py:173-176 | the maximal words of the mask are exactly the maximal words of the text that are code, spelled the same |
| SqlMaskLaws.WordsDoNotStraddle | mcp-server/mcp_sql_server/services/query_validator.py:173-176 | a word of the text lies inside one comment or quoted section or is code from end to end and then in the mask |
| SqlPayload.StepShifts | mcp-server/mcp_sql_server/services/query_validator.py:184-221 | a step depends on the rest of the text and on one character before, not on where it is |
| SqlPayload.PayloadDoesNotMatter | mcp-server/mcp_sql_server/services/query_validator.py:205-207 | replacing the payload of a quoted section by any other without backslashes leaves the mask or the refusal as it was |
| SqlShapes.CodeIsKept | mcp-server/mcp_sql_server/services/query_validator.py:219-221 | a character with which none of the sections begins, spelled out for each dialect, is kept and the rest is masked on its own |
| SqlShapes.DollarInWordIsKept | mcp-server/mcp_sql_server/services/query_validator.py:208 | a dollar behind a letter, a digit or an underscore is kept with it |
| SqlShapes.DollarIsKept | mcp-server/mcp_sql_server/services/query_validator.py:209-212 | a dollar is kept when no name of letters and underscores and a second dollar follow |
| SqlShapes.DollarsAreMasked | mcp-server/mcp_sql_server/services/query_validator.py:213-218 | two copies of a tag with any text between in which the second does not begin earlier become one question mark |
| SqlShapes.DollarsAreRefused | mcp-server/mcp_sql_server/services/query_validator.py:213-216 | a tag without a second copy is refused |
| SqlShapes.MatchTagSpelled | mcp-server/mcp_sql_server/services/query_validator.py:61 | the pattern matches between two dollars exactly the names in capitals, small letters and underscores |
| SqlShapes.QuotedIsMasked | mcp-server/mcp_sql_server/services/query_validator.py:205-207 | text between a pair of quotes, spelled out for each dialect, becomes one question mark and the rest is masked on its own |
| SqlShapes.DoubledQuoteIsPayload | mcp-server/mcp_sql_server/services/query_validator.py:241-243 | a doubled closing quote does not end the text |
| SqlShapes.QuotesAreRefused | mcp-server/mcp_sql_server/services/query_validator.py:236-248 | a backslash in quoted text and a quote that is not closed are refused, each with its reason |
| SqlShapes.LineIsMasked | mcp-server/mcp_sql_server/services/query_validator.py:188-196 | a line comment becomes a space and the rest, from the newline on, is masked on its own |
| SqlShapes.DashesNeedABlank | mcp-server/mcp_sql_server/services/query_validator.py:189-191 | in MySQL two dashes are refused before anything but a space, a tab, a carriage return or a newline |
| SqlShapes.BlockIsMasked | mcp-server/mcp_sql_server/services/query_validator.py:197-204 | a block comment up to its first closing pair becomes a space |
| SqlShapes.RunCommentIsRefused | mcp-server/mcp_sql_server/services/query_validator.py:198-199 | a comment that MySQL runs is refused |
| SqlShapes.OpenBlockIsRefused | mcp-server/mcp_sql_server/services/query_validator.py:200-202 | a comment that is not closed is refused |
| SqlTextCheck.MaskOfCut | mcp-server/mcp_sql_server/services/query_validator.py:167-222 | cutting whitespace and semicolons off the text, even inside a trailing line comment, only cuts characters off the end of the mask |
| SqlTextCheck.TrimIgnoresOneSemicolon | mcp-server/mcp_sql_server/services/query_validator.py:91 | if no semicolon is left in the trimmed code, one trailing semicolon more or less does not change it |
| SqlTextCheck.SentCodeIsCheckedCode | mcp-server/mcp_sql_server/services/query_validator.py:90-96 | the SQL without its trailing semicolon still masks, to the same code |
| SqlTextCheck.SentPassesTextCheck | mcp-server/mcp_sql_server/services/query_validator.py:82-116 | SQL that passed the text check passes it again in the form it is returned in, with the same code |
| SqlTextCheck.CheckedIsSent | mcp-server/mcp_sql_server/services/query_validator.py:82-96 | what is checked is what is sent: the code of the validated query is the code that was judged |
| SqlTextCheck.AcceptedIff | mcp-server/mcp_sql_server/services/query_validator.py:82-116 | SQL is accepted with a code if and only if it is not blank, not too long and without NUL, and the trimmed mask is that code, one statement that starts like a query and breaks none of the three rules |
| SqlTextCheck.RefusalIs | mcp-server/mcp_sql_server/services/query_validator.py:83-116 | which refusal is given tells which check failed, in order |
| SqlTextCheck.ReturnedIff | mcp-server/mcp_sql_server/services/query_validator.py:94-96 | what is returned are the parser's tables and the SQL without blanks, at most one semicolon and blanks at its end |
| SqlTextCheck.StripIff | mcp-server/mcp_sql_server/services/query_validator.py:91 | stripping gives exactly what is left between two blank ends |
| SqlTextCheck.DropSemicolonsIff | mcp-server/mcp_sql_server/services/query_validator.py:91 | dropping semicolons gives exactly what is left before a row of them |
| SqlEngines.EndsAtFirstCloseIff | mcp-server/mcp_sql_server/services/query_validator.py:200-204 | a block comment that ends with the first closing pair is a whole nesting comment if and only if no other one opens in it |
| SqlEngines.QuotedEndsAlike | mcp-server/mcp_sql_server/services/query_validator.py:230-248 | quoted text that is not refused ends at the same place whether or not an engine takes backslashes as escapes |
| SqlEngines.ReadsAlikeIff | mcp-server/mcp_sql_server/services/query_validator.py:178-180 | for any dialect and any engine's rules, an accepted text is cut into the same tokens by both if and only if none of them is one on which the rules part |
| SqlEngines.PostgresReadsAlikeIff | mcp-server/mcp_sql_server/services/query_validator.py:178-180 | for PostgreSQL: no nesting comment, carriage return in a line comment, backticks, dollar section in a name or wider dollar tag |
| SqlEngines.MySqlReadsAlikeIff | mcp-server/mcp_sql_server/services/query_validator.py:178-180 | for MySQL: no dollar section; for MariaDB also no comment that it runs |
| SqlEngines.SqlServerReadsAlikeIff | mcp-server/mcp_sql_server/services/query_validator.py:178-180 | for SQL Server: no dollar section, backticks or nesting comment |
| SqlEngines.SqliteReadsAlikeIff | mcp-server/mcp_sql_server/services/query_validator.py:178-180 | for SQLite: no dollar section and no bracket in the code |
| SqlEngines.DigitTagIsCode | mcp-server/mcp_sql_server/services/query_validator.py:61 | a string between tags with a digit is code to the scanner and quoted to PostgreSQL |
| SqlEngines.ReturnEndsComment | mcp-server/mcp_sql_server/services/query_validator.py:225-227 | a carriage return ends a line comment for PostgreSQL but not for the scanner |
| SqlEngines.NestedCommentEndsEarly | mcp-server/mcp_sql_server/services/query_validator.py:197-204 | of a comment in a comment the scanner takes the end for code, PostgreSQL and SQL Server do not |
| SqlEngines.DollarsQuoteNothing | mcp-server/mcp_sql_server/services/query_validator.py:208-218 | dollars quote for the scanner in every dialect, but for PostgreSQL only |
| SqlEngines.BacktickIsQuoted | mcp-server/mcp_sql_server/services/query_validator.py:205-207 | backticks quote for the scanner whatever the dialect, but not for PostgreSQL and SQL Server |
| SqlEngines.BracketIsCode | mcp-server/mcp_sql_server/services/query_validator.py:205-207 | a name in brackets is code to the scanner and quoted to SQLite |
| SqlEngines.RunCommentIsMasked | mcp-server/mcp_sql_server/services/query_validator.py:197-204 | a comment that MariaDB runs is a comment to the scanner |
| RedisCache.RedisCache.Version | mcp-server/mcp_sql_server/cache/redis_cache.py:77-85 | the version, or None while the breaker is open or when the call fails, which opens it |
| RedisCache.RedisCache.Get | mcp-server/mcp_sql_server/cache/redis_cache.py:59-67 | a live entry, or None on a miss, while the breaker is open and on any failure |
| RedisCache.RedisCache.Set | mcp-server/mcp_sql_server/cache/redis_cache.py:69-75 | the entry is stored unless skipped or lost; nothing else changes |
| RedisCache.RedisCache.Bump | mcp-server/mcp_sql_server/cache/redis_cache.py:87-98 | always attempted; the version goes up by one unless the command was lost |
| RedisCache.RedisCache.CachedJson | mcp-server/mcp_sql_server/cache/helpers.py:14-42 | an entry is served if and only if the version is told and it is there, alive and readable, else the loader's answer, which is stored under that version exactly when that can be done; no failure is a request failure |
| RedisCache.FailuresAreSpaced | mcp-server/mcp_sql_server/cache/redis_cache.py:46-57 | two failing get, set or version calls are at least the cooldown apart |
| RedisCache.FailuresAreFew | mcp-server/mcp_sql_server/cache/redis_cache.py:46-85 | however many calls are made, the failing ones in a stretch of time are bounded by its length over the cooldown, plus one |
| RedisCache.ManyFailuresTakeLong | mcp-server/mcp_sql_server/cache/redis_cache.py:46-57 | any failing calls, named one by one, span ten seconds for each after the first |
| CacheProtocol.SoundStep | mcp-server/mcp_sql_server/cache/helpers.py:27-42 | every step, faults and restarts included, keeps entries and answers what the loader said at some moment |
| CacheProtocol.AnswersAreRealAndBounded | mcp-server/mcp_sql_server/cache/redis_cache.py:59-98 | bounded staleness under any faults: an answer is the loader's for some moment, and a cached one was stored less than its TTL before it was served |
| CacheProtocol.VersionedStep | mcp-server/mcp_sql_server/cache/helpers.py:27-42 | every step, restarts included, but a store across a restart and a return to an older version, keeps each entry at least as new as the commits made before its version became current |
| CacheProtocol.ChangesAreEffectiveImmediately | gui-backend/gui_backend/changes.py:45-53 | over every interleaving, with restarts of Redis, in which no lookup stores across one and Redis returns to no older version, a lookup that begins after an announcement got through answers for the database at or after that commit |
| CacheProtocol.RestartBreaksFreshness | mcp-server/mcp_sql_server/cache/redis_cache.py:77-98 | a run with a late store across a restart in which a lookup after the announcement is told the old answer |
| CacheProtocol.ReloadBreaksFreshness | mcp-server/mcp_sql_server/cache/redis_cache.py:77-98 | a run in which Redis comes back with an older version and a lookup after the announcement is told the old answer |
| CacheProtocol.StoredAnswerIsFreshIff | mcp-server/mcp_sql_server/cache/helpers.py:27-42 | an answer stored under the current version is served next, fresh if and only if it is no older than the version, which it never is unless its lookup crossed a restart |
| CacheProtocol.CodeRunsTheProtocol | mcp-server/mcp_sql_server/cache/helpers.py:14-42 | a coded lookup that nobody interrupts does what a run of the protocol's steps does, same answer and same store |
| CacheProtocol.VersionIsAsk | mcp-server/mcp_sql_server/cache/redis_cache.py:77-85 | asking the client for the version is the first step of a lookup, in any state of the system |
| CacheProtocol.GetIsGet | mcp-server/mcp_sql_server/cache/redis_cache.py:59-67 | getting an entry is one step: done if it is live, told and readable, and a miss otherwise |
| CacheProtocol.SetIsStore | mcp-server/mcp_sql_server/cache/redis_cache.py:69-75 | storing an answer is one step, lost exactly when it is skipped or fails unapplied |
| CacheProtocol.BumpIsAnnounce | mcp-server/mcp_sql_server/cache/redis_cache.py:87-98 | bumping the version is the announcing step |
| Subjects.ParseLabel | gui-frontend/src/features/permissions/TableAccess.tsx:16-19 | parsing a row key gives back the type and the id, colons in the id included |
| Subjects.LabelIsUnique | gui-frontend/src/features/permissions/staging.ts:12 | different subjects have different row keys |
| CacheKeys.FingerprintTextIff | mcp-server/mcp_sql_server/cache/helpers.py:45-52 | two subject lists in whose names no newline is followed by `user:` or `role:` are hashed from the same text if and only if they have the same subjects in any order |
| CacheKeys.SameTextIff | mcp-server/mcp_sql_server/cache/helpers.py:45-52 | whatever the names, two subject lists are hashed from the same text if and only if their labels in order, cut at every newline that is followed by `user:` or `role:`, give the same pieces |
| CacheKeys.BreaksMakeTextAmbiguous | mcp-server/mcp_sql_server/cache/helpers.py:51 | a name that holds such a newline reads like two subjects, whenever the two are in order |
| CacheKeys.DecimalIsUnique | mcp-server/mcp_sql_server/cache/helpers.py:31 | different versions are written differently |
| CacheKeys.MetaQuestionsDiffer | mcp-server/mcp_sql_server/cache/cached_meta_store.py:48-96 | two permission or description lookups share a key text if and only if they are the same question |
| CacheKeys.SchemaQuestionsDiffer | mcp-server/mcp_sql_server/cache/cached_adapter.py:49-68 | two schema lookups share a key text if and only if they agree on connection, edit and folded table name |
| CacheKeys.KeysNeverMix | mcp-server/mcp_sql_server/cache/redis_cache.py:59-98 | two Redis keys are equal if and only if they are the same question under the same version, the same counter or the same token |
| GrantApi.AdminApi.ChangeTableAccess | gui-backend/gui_backend/routers/permissions.py:283-336 | the transaction's loops grant and revoke exactly the tables asked for, log one entry, and refuse with the right status |
| GrantApi.AdminApi.ChangeToolAccess | gui-backend/gui_backend/routers/permissions.py:361-409 | the same for tools, unknown ones refused |
| GrantApi.AdminApi.ReplaceAccess | gui-backend/gui_backend/routers/connections.py:382-428 | the loops over both differences replace the list; logged only if it changed |
| GrantApi.AdminApi.RemoveConnection | gui-backend/gui_backend/routers/connections.py:288-313 | 404 if it is not there, 409 if reports use it, otherwise the connection and exactly its grants go, every other one stays as it was, and one entry is logged |
| GrantApi.AdminApi.AddConnection | gui-backend/gui_backend/routers/connections.py:194-230 | a connection under a well-formed and free name with valid settings, or the right refusal |
| GrantApi.DeletedIsGone | gui-backend/gui_backend/routers/connections.py:288-313 | after a deletion the connection is not there, and later requests on it are not found |
| GrantApi.HandleAssigns | gui-backend/gui_backend/routers/permissions.py:289-310 | an accepted request sets the cells it names to constants and touches no other grant; asked both ways, a cell is granted |
| Staging.SplitCellKeyIff | gui-frontend/src/features/permissions/staging.ts:14-19 | splitting a cell key gives back row and column if and only if the row has no separator |
| Staging.StageSets | gui-frontend/src/features/permissions/staging.ts:25-34 | staging changes how the one cell reads and no other |
| Staging.StageKeepsOnlyChanges | gui-frontend/src/features/permissions/staging.ts:21-30 | the pending map only ever holds values that differ from what is saved |
| Staging.GroupByRow | gui-frontend/src/features/permissions/staging.ts:50-58 | the loop groups the changes as specified |
| Staging.GroupedIs | gui-frontend/src/features/permissions/staging.ts:49-58 | each row appears once, with exactly its own changes in order |
| GridSave.Write | gui-frontend/src/features/permissions/TableAccess.tsx:32-58 | a save carries out exactly the requests up to the first that is refused or loses a message, all of them if it succeeds |
| GridSave.StopsAtFirstFailure | gui-frontend/src/features/permissions/TableAccess.tsx:32-58 | the sending stops at the first request that is refused or loses a message and not before |
| GridSave.AcceptedIff | gui-backend/gui_backend/routers/permissions.py:80-89 | the requests of a save are all accepted if and only if each is well shaped and the connection exists |
| GridSave.SaveAssigns | gui-frontend/src/features/permissions/TableAccess.tsx:32-58 | what a successful save does to every grant, also when the grid is old |
| GridSave.SaveDoesWhatTheScreenShowed | gui-frontend/src/features/permissions/TableAccess.tsx:26-58 | every cell of the connection ends up with its effective value over what is saved when the save begins, and no other grant changes |
| GridSave.TableNamedUseIff | gui-frontend/src/features/permissions/TableAccess.tsx:13-53 | a table named like the use column is never touched, so it ends as that column shows if and only if it did before |
| GridSave.UntouchedUseSurvivesIff | gui-frontend/src/features/permissions/TableAccess.tsx:36-49 | untouched use cells survive a save exactly when no use cell was touched or the old list still agrees on them |
| GridSave.RetryConverges | gui-frontend/src/features/permissions/useStagedGrid.ts:40-56 | after any number of attempts broken off anywhere, a save that gets through is accepted and leaves the grants of one that never failed |
| GridAcceptance.SaveIsAcceptedIff | gui-backend/gui_backend/routers/permissions.py:80-89 | staged changes can be saved if and only if the connection exists, each row has at most 2000 tables, names have a fitting length and, if a use cell is staged, so have those on the list |
| GridAcceptance.ReplacesAccessIff | gui-frontend/src/features/permissions/TableAccess.tsx:36-37 | the access list is sent if and only if some use cell is staged |
| GridAcceptance.RequestsSpelled | gui-frontend/src/features/permissions/TableAccess.tsx:35-56 | the access list comes first and at most once, then one request for each subject |
| GridAcceptance.OneCellSpelled | gui-frontend/src/features/permissions/TableAccess.tsx:13-55 | from the text of one cell's key to its request: the access list for the use column, a table change otherwise |
| GridSessions.TryOnce | gui-frontend/src/features/permissions/useStagedGrid.ts:40-56 | a try after others either gets through and leaves the grants of one undisturbed save, or keeps the map and carries out some more requests |
| GridSessions.SaveUntilDone | gui-frontend/src/features/permissions/useStagedGrid.ts:40-56 | trying again until a save gets through ends with every grant as the screen showed it, and one try without losses is enough unless the changes cannot be saved at all |
| GridSessions.NothingIsLostIff | gui-frontend/src/features/permissions/useStagedGrid.ts:40-56 | after a save of one map every grant is as the screen showed with another if and only if both want the same for every cell |
| GridSessions.SaveWhileStaging | gui-frontend/src/features/permissions/useStagedGrid.ts:27-56 | a save during which cells go on being toggled: a success loses nothing if and only if the toggles left the map as it was; after a failure, which keeps the map, a later save ends as the screen showed if and only if it sets again what was carried out |
| GridSessions.ToggledBackStaysGranted | gui-frontend/src/features/permissions/useStagedGrid.ts:27-56 | an example: a cell toggled back while its request is in flight and its reply is lost stays granted, unseen, and saving again does not change it |
| BrokenSaves.ChangedIff | gui-frontend/src/features/permissions/TableAccess.tsx:32-58 | the grants that a broken-off save changed are exactly those of the staged cells that a request carried out sets |
| BrokenSaves.LaterSaveMendsIff | gui-frontend/src/features/permissions/useStagedGrid.ts:40-56 | after a broken-off save of one map, a save of another ends as the screen showed if and only if it sets every cell again that was carried out |
| BrokenSaves.DiscardedScreenIsTrueIff | gui-frontend/src/features/permissions/StagedBar.tsx:42-48 | after a failed save is discarded, the screen shows what is in effect if and only if no request was carried out |
| StagedGrid.Revocations | gui-frontend/src/features/permissions/staging.ts:61-68 | the loop lists revocations by row as specified |
| StagedGrid.RevokedIs | gui-frontend/src/features/permissions/staging.ts:60-68 | a row lists exactly its revoked columns |
| StagedGrid.Grid.Set | gui-frontend/src/features/permissions/useStagedGrid.ts:27-38 | stages each cell in turn and clears the last message |
| StagedGrid.Grid.RequestSave | gui-frontend/src/features/permissions/useStagedGrid.ts:58-61 | asks for confirmation exactly when something would be revoked |
| StagedGrid.Grid.EndSave | gui-frontend/src/features/permissions/useStagedGrid.ts:44-55 | success empties the map, failure keeps it |
| StagedGrid.Grid.DoSave | gui-frontend/src/features/permissions/useStagedGrid.ts:40-56 | either all requests were carried out, nothing is pending and every grant is as an up-to-date grid showed it, or the map is as it was and the same save can be retried |
| StagedGrid.StageAllStaysOnGrid | gui-frontend/src/features/permissions/useStagedGrid.ts:31-35 | staging grid cells keeps every pending key a cell of a subject's row |
| StagedGrid.StageAllShows | gui-frontend/src/features/permissions/useStagedGrid.ts:27-38 | after staging, the named cells show the wanted value and all others what they showed |
| StagedGrid.StagingTwiceUndoes | gui-frontend/src/features/permissions/staging.ts:25-30 | toggling a cell twice leaves no trace |
| StagedGrid.CellStagedDuringSaveIsLost | gui-frontend/src/features/permissions/useStagedGrid.ts:40-56 | an example: a cell staged while a save is in flight is afterwards neither granted nor pending |
| AdminLog.StepReplays | gui-backend/gui_backend/routers/permissions.py:289-334 | what a request logs replays to exactly what it did |
| AdminLog.LogIsFaithful | gui-backend/gui_backend/changes.py:24-42 | over any serial run of requests, replaying the new entries on the old grants gives the new grants |
| AdminLog.HistoryTellsGrants | gui-backend/gui_backend/routers/connections.py:415-426 | names and labels in the log stand for one grant each |
| SigningKeys.KeySetIs | mcp-server/mcp_sql_server/auth/token_verifier.py:110-116 | a key id maps to its last usable entry of the response, and only usable entries are kept |
| SigningKeys.KeySetSpelled | mcp-server/mcp_sql_server/auth/token_verifier.py:110-116 | the same with usable entries spelled out: for signing or unmarked, with an id and a key |
| SigningKeys.JwtTokenVerifier.RefreshKeys | mcp-server/mcp_sql_server/auth/token_verifier.py:106-118 | the loop fills the key set; a failed request changes nothing |
| SigningKeys.JwtTokenVerifier.KeyFor | mcp-server/mcp_sql_server/auth/token_verifier.py:91-104 | a held key at most ten minutes old is returned and nothing changes; otherwise the provider is asked unless there are keys from the last half minute, and the last usable entry's key is returned |
| SigningKeys.BeginDecides | mcp-server/mcp_sql_server/auth/token_verifier.py:91-96 | a request whose key is held and at most ten minutes old is done with that key, any other one waits |
| SigningKeys.AcquireDecides | mcp-server/mcp_sql_server/auth/token_verifier.py:97-104 | under the lock the same, else it refreshes if there are no keys or the last ones are half a minute old, else there is no key |
| SigningKeys.FetchDecides | mcp-server/mcp_sql_server/auth/token_verifier.py:103-118 | a response replaces the keys and gives the last usable entry's key, a failure changes nothing and gives none |
| SigningKeys.InvStep | mcp-server/mcp_sql_server/auth/token_verifier.py:91-118 | every step of every interleaving keeps the lock, the record of refreshes and the justification of each key handed out |
| SigningKeys.RefreshesNeverOverlap | mcp-server/mcp_sql_server/auth/token_verifier.py:97-103 | at most one request is refreshing at any time |
| SigningKeys.KeysAreCurrent | mcp-server/mcp_sql_server/auth/token_verifier.py:91-118 | a key handed out comes from the latest fetched set, at most 600 seconds old when decided on |
| SigningKeys.RefreshesAreSpaced | mcp-server/mcp_sql_server/auth/token_verifier.py:101-103 | a refresh starts only when no keys are held or the last success is 30 seconds old |
| SigningKeys.RefetchedWithinIntervalIff | mcp-server/mcp_sql_server/auth/token_verifier.py:36-38 | within the interval after a refresh ended, the next request that the held keys do not serve starts another if and only if it failed or brought no keys |
| SigningKeys.FailedRefreshesAreNotThrottled | mcp-server/mcp_sql_server/auth/token_verifier.py:97-104 | in any state in which an unknown id may start a refresh, whatever keys are held, a failing provider makes it start two in one instant |
| SigningKeys.NotThrottledWhileKeysAreHeld | mcp-server/mcp_sql_server/auth/token_verifier.py:97-104 | a run that gets there holding a key |
| Introspection.Introspect | mcp-server/mcp_sql_server/auth/introspection.py:76-97 | a failed or odd reply gives nothing to judge and nothing to store; otherwise the TTL is capped by the expiry, five seconds if inactive |
| Introspection.LookDecides | mcp-server/mcp_sql_server/auth/introspection.py:54-61 | a live readable entry is accepted if and only if it is active, has a subject, is not expired and is for this audience and issuer; without one the provider is asked |
| Introspection.ReplyDecides | mcp-server/mcp_sql_server/auth/introspection.py:63-97 | what the provider says is stored for five seconds if inactive, otherwise for the configured time or to the expiry, whichever is less |
| Introspection.StoreDecides | mcp-server/mcp_sql_server/auth/introspection.py:92-110 | then it decides in the same way, and the entry says what was said |
| Introspection.InvStep | mcp-server/mcp_sql_server/auth/introspection.py:54-97 | every step keeps entries and acceptances justified by the provider's answers |
| Introspection.AcceptedTokensAreActive | mcp-server/mcp_sql_server/auth/introspection.py:54-110 | an accepted token is unexpired, for this audience and issuer, and was called active in an answer fetched in this call or stored less than the TTL ago |
| Introspection.OnlyAnswersAreStored | mcp-server/mcp_sql_server/auth/introspection.py:76-97 | failed lookups are never stored and an inactive answer lives at most five seconds |
| Introspection.EntriesAreStored | mcp-server/mcp_sql_server/auth/introspection.py:54-97 | every entry, and every entry a token was accepted on, was stored by a step of the run at the moment it says |
| Introspection.RevocationIsBounded | mcp-server/mcp_sql_server/auth/introspection.py:54-61 | after the provider stops calling a token active it is accepted for at most the TTL after the last store of an answer from before |
| SchemaService.ListTables | mcp-server/mcp_sql_server/services/schema_service.py:64-86 | the loop lists and describes exactly the visible tables in order |
| SchemaService.RelationshipsOf | mcp-server/mcp_sql_server/services/schema_service.py:132-163 | the loop collects the relationships as specified, errors included |
| SchemaService.VisibleLookup | mcp-server/mcp_sql_server/adapters/sqlalchemy_adapter.py:237-245 | looking up an allowed name finds the same table whether or not there are hidden ones |
| SchemaService.HiddenTablesDoNotInfluence | mcp-server/mcp_sql_server/services/schema_service.py:64-163 | databases that agree on what a caller may see give that caller the same answers, flags and errors |
| SchemaService.ListIsComplete | mcp-server/mcp_sql_server/services/schema_service.py:73-86 | the list shows every visible table, once and in order, and nothing else |
| SchemaService.ListSpelled | mcp-server/mcp_sql_server/services/schema_service.py:73-86 | the listed tables are those whose folded names are granted, in order, each with its kind and its curated text or else its comment, cleaned |
| SchemaService.ListFlagsSpelled | mcp-server/mcp_sql_server/services/schema_service.py:73-86 | what is flagged is exactly what cleaning the listed names and descriptions flags |
| SchemaService.DescribeSpelled | mcp-server/mcp_sql_server/services/schema_service.py:92-126 | a table is described if and only if it is granted and found, with all columns as they are, their texts cleaned, and exactly the foreign keys to granted tables |
| SchemaService.LookupSpelled | mcp-server/mcp_sql_server/adapters/sqlalchemy_adapter.py:237-245 | a name finds the table spelled like it, or else the only one spelled like it up to case |
| SchemaService.RelationshipsAnswered | mcp-server/mcp_sql_server/services/schema_service.py:138-143 | relationships are given if and only if the table is granted and found |
| SchemaService.RelationshipsAreComplete | mcp-server/mcp_sql_server/services/schema_service.py:138-163 | the foreign keys listed are exactly those to tables, and from base tables, that the caller may see |
| SchemaCache.CacheIsTransparentIff | mcp-server/mcp_sql_server/cache/cached_adapter.py:59-68 | calls in any spelling, with entries coming and going, answer as the adapter would if and only if no two exposed names fold together |
| SchemaCache.TwoSpellingsDiffer | mcp-server/mcp_sql_server/cache/cached_adapter.py:59-68 | of two tables that fold together the second is answered with the first |
| QueryPipeline.ToolCall.Open | mcp-server/mcp_sql_server/services/permission_service.py:63-74 | an adapter is handed out only after the tool grant, the connection and the caller's tables |
| QueryPipeline.ToolCall.ResolveRowLimit | mcp-server/mcp_sql_server/services/query_service.py:98-103 | the default, the requested number within the limits, or an error |
| QueryPipeline.ToolCall.ValidateAndAuthorize | mcp-server/mcp_sql_server/services/query_service.py:105-117 | every table of the query was checked and allowed; the recorded tables are the query's, refused or not |
| QueryPipeline.ToolCall.Run | mcp-server/mcp_sql_server/services/audit_service.py:41-80 | the adapter is reached exactly when all checks pass and after them, exactly one audit write comes last, no result without a stored success entry, the first error is the one raised and never replaced |
| QueryPipeline.RefusedIff | mcp-server/mcp_sql_server/services/permission_service.py:38-74 | a call meets no refusal if and only if tool, connection, adapter, range and every table it reads are allowed |
| QueryPipeline.RefusalsSpelled | mcp-server/mcp_sql_server/services/permission_service.py:38-74 | each way of being refused with its error, the first that applies winning, table names compared up to case |
| QueryPipeline.NothingUnrecordedIsReleased | mcp-server/mcp_sql_server/services/query_service.py:44-94 | a released result was recorded, reached the adapter and touches only allowed tables |
| ConnectionRegistry.Registry.AdapterFor | mcp-server/mcp_sql_server/services/connection_registry.py:92-104 | the adapter is open, no other connection's, and of this very edit; a fitting one is reused, an outdated one closed once and then replaced, or kept if closing fails; others are untouched |
| ConnectionRegistry.Registry.Close | mcp-server/mcp_sql_server/services/connection_registry.py:132-136 | it succeeds if and only if every close works, and then everything that was ever opened has been closed exactly once |

## Left out

- The parser, scope traversal and the regular expressions of the keyword checks: library code, here a function from SQL to tables and predicates on the code.
- SQLAlchemy, drivers, timeouts, EXPLAIN, building the table index from reflection: foreign calls; an adapter is the list of exposed tables under canonical names.
- Cryptography: signatures are outside, hashes are assumed to tell their inputs apart (the code keeps 32 hexadecimal digits of SHA-256).
- JSON: stored values come back as they were, or as unreadable.
- CacheProtocol: one cache family at a time; announcing bumps each family in turn and they share nothing. A database load happens at one instant.
- ConnectionRegistry.Registry.Close: after a close that fails the code keeps adapters it has closed already, so nothing is promised about the ledger then; requests that are still using an adapter when it is closed are not modelled.
- SqlEngines: rules of an engine other than for comments, quotes and what may come before a dollar; the engines are not in the repository, their rules are stated as their documentation has them.
- GrantApi: concurrent administrators on the same rows (requests are serial transactions), who granted what and when, known subjects, and the order of the sorted lists in log entries, which are sets here.
- GridSave.Write: the subjects of the access list are sent as a set; the code sends a list that the server turns into one.
- SigningKeys.KeyFor: discovery of the key set's address, which is one more request that can fail.
- QueryPipeline: the contents and sanitizing of results, durations, and exits that are not ordinary exceptions, such as cancellation.
- Introspection: the wall clock is taken not to go back.
- Searching descriptions, listing connections, tool grids, sign-in, rendering, health and report screens: easy members or user interface.
