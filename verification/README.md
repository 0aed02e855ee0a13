# Verified model of EcoEvent 360

Dafny models and proofs for the parts of EcoEvent 360 whose correctness does not
show from reading one function: who sees which rows on a pooled database
connection, how calls are counted, what the data migrations keep, how Chilean
wall-clock time is converted, and what the browser decides before the server does.

`dafny verify dfyconfig.toml` checks every file.

## What is modelled

**Access context (`RlsSession.dfy`).** Sessions take turns on a pool of
connections. The access context is three transaction-local settings, written one
statement at a time, restored by the `after_begin` listener and undone when the
transaction ends. A run is any legal interleaving of the steps of any number of
Sessions: beginning on a free connection, setting a context, setting a public-form
or other capability value, one `set_config` statement, a failing statement, commit,
rollback, close, clearing, and the pool discarding an idle connection. The reference
is what a Session's own calls say (`OwnContext`, `OwnLocal`), read off its calls
without looking at the pool; the invariant ties every connection to it. The class
`SessionPool` holds the functions of the session module, each proved to be exactly
those steps.

**Access rules (`Sql.dfy`, `Permissions.dfy`, `Policies.dfy`,
`AccessAgreement.dfy`).** The Python rules and the SQL predicates over the same
tables, the latter in three-valued logic. `app_can_view_event` and
`app_can_view_order` run as their owner over whole tables; subqueries written inside
a policy see only the rows the caller's other policies let through. The agreement
theorems compare the two sides, then evaluate the Python rules through the
policies, then start from a run of the pooled sessions; the later ones are stated for
the task policy of revision 0005 and for the one that replaced it in revision 0040.

**Rate limiter (`RateLimit.dfy`, `ClientIp.dfy`, with `Text.dfy`, `Decimal.dfy`,
`Division.dfy`).** Both stores, with
Redis expiry in real time, over arbitrary traces of calls; key text, window
arithmetic and forwarded-header parsing included.

**Data migrations (`PeopleMerge.dfy`, `FieldOrder.dfy`, `Catalog.dfy`).** Revisions
0079, 0062 with 0063, 0074 and 0075, as statements over tables in scan order.

**Chilean time (`Calendar.dfy`, `ChileZone.dfy`, `ChileTime.dfy`, `ChileDay.dfy`).** Calendar arithmetic of
ECMA-262, section 21.4.1, an arbitrary time zone with the offsets -4 h and -3 h, the
correction loop of `chileLocalToIso`, both conversions of text, and the UTC bounds of
a local day.

**Browser logic (`Logbook.dfy`, `OfflineQueue.dfy`, `PlainText.dfy`).** The logbook
summary and the server's own submission checks, the rewrite of the offline queue by
two callbacks in either order, and the two text canonicalizers.

## Where the code falls short of its promise

Each of these is proved, with the exact condition under which the promise holds and
an input for which it does not.

- An administrator passes `can_access_event` for an event that does not exist, while
  the database shows none (`EventRulesAgree`, `AdministratorsMissingEvent`).
- Since revision 0040 a logistics operator whose only relation to an event is a task
  no longer sees the event through `events_rls`, although `app_can_view_event` still
  says yes (`InlineEventsPolicySinceTasksSelect`, `EventRuleSinceTasksSelect`,
  `AnOperatorWithOneTask`).
- When Redis answers more than one second after the clock was read, it can admit a call
  that memory rejects: exactly when the calls of the counter's current life in Redis are
  still within the limit (`DecisionsDifferExactly`, `ALateCallIsForgotten`). It never
  rejects a call that memory admits.
- Revision 0079 updates the surviving people while the unique (client, lower(email))
  index is still in force. It succeeds in every order in which the database may visit the
  rows exactly when no written row's email is taken at its client, now or after the update
  (`NoEmailClashIsExact`, `AnAdoptedEmailCanClash`); otherwise the order can decide
  (`TheOrderCanDecide`).
- Revision 0062 says it places the commune directly after the region in standard Bike Zone
  forms; over all Bike Zone forms, and with 0063 after it, a new commune ends there exactly
  if the sort order of the region was less than 9 (`CommuneBelowRegion`, `ARegionAtNine`).
- Revision 0074 fails when a row of another kind already holds the family key
  (`FailsOnAForeignKey`, `AForeignKeyFails`).
- `chileLocalToIso` rejects times that a clock change skips, but takes 31 February for
  3 March (`NonexistentDatesAreAccepted`, `LocalRoundTrip`).
- On the day clocks go back, the day's bounds leave out the second pass of its last
  hour (`BoundsAreTheDay`, `ARepeatedHourIsMissed`).
- The browser calls some logbooks incomplete that the server would accept
  (`CompleteMeansAccepted`, `AnAnswerWithoutValue`).

## Model

| member | source | states |
|---|---|---|
| RlsSession.StepKeepsInvariant | backend/app/db/session.py:21-125 | every step of any session or of the pool keeps the invariant: no connection is shared, idle connections hold only blank values, and each session's settings, once its pending writes are through, read as its own calls say |
| RlsSession.InvariantHolds | backend/app/db/session.py:21-125 | the invariant holds after every legal interleaving |
| RlsSession.StatementsSeeTheirOwnSession | backend/app/db/session.py:36-61 | in every interleaving, a statement of a session reads for each setting exactly what that session's own calls set last |
| RlsSession.ExpectedIsOwn | backend/app/db/session.py:47-61 | what a session should read depends on its own calls only |
| RlsSession.OthersLeaveNoTrace | backend/app/db/session.py:36-125 | the steps compared for isolation are all of the session's own, in order, and nobody else's |
| RlsSession.SessionsAreIsolated | backend/app/db/session.py:36-125 | two runs in which a session makes the same calls show it the same values, whatever the other sessions and the pool do |
| RlsSession.ContextOutlivesTransactions | backend/app/db/session.py:36-61 | a context holds through commits, rollbacks, failures and changes of connection until the session replaces or clears it |
| RlsSession.NoContextWithoutSetting | backend/app/db/session.py:110-125 | a session that never set a context, or cleared each one, reads none on a reused connection |
| RlsSession.LocalValuesDieWithTheTransaction | backend/app/db/session.py:64-107 | a public-form or other capability value is gone after the end of its transaction |
| RlsSession.LocalValuesLast | backend/app/db/session.py:64-107 | and until that end every statement of the session reads it, unless the session itself overwrites it |
| RlsSession.FinishIsARun | backend/app/db/session.py:21-33 | completing a call is a run of single set_config statements, so the methods below are runs of the protocol |
| RlsSession.EveryCallIsPossible | backend/app/db/session.py:36-125 | the modelled runs leave nothing out: after completing its current call, a session can commit, roll back, close, clear, and make any call on its own or a free connection |
| RlsSession.FailuresArePossible | backend/app/db/session.py:110-125 | a statement can fail at any moment of a transaction, the session can then be cleared without a rollback, and the pool can discard idle connections |
| RlsSession.SessionPool.ApplyRlsContext | backend/app/db/session.py:21-33 | writes the user, role and client settings on the connection and touches no other connection |
| RlsSession.SessionPool.RestoreRlsContext | backend/app/db/session.py:36-44 | writes the stored context when there is one, otherwise nothing |
| RlsSession.SessionPool.SetRlsContext | backend/app/db/session.py:47-61 | is the SetContext step carried to its end; succeeds exactly when the transaction is not in a failed state, and stores the context either way; on success the session's statements read the user, role and client given, none for a missing client |
| RlsSession.SessionPool.SetPublicFormRlsContext | backend/app/db/session.py:64-84 | is the SetLocal step for the three public-form settings; on success the session's statements read the form id, the response id and the idempotency key under their own names, none where missing or empty |
| RlsSession.SessionPool.SetCapability | backend/app/db/session.py:87-107 | one capability setting as a SetLocal step, read back under its name |
| RlsSession.SessionPool.SetPublicWasteContext | backend/app/db/session.py:87-91 | on success the session's statements read the token as the public waste token |
| RlsSession.SessionPool.SetPublicDocumentContext | backend/app/db/session.py:94-99 | on success they read the hash as the public document token hash |
| RlsSession.SessionPool.SetDocumentEventContext | backend/app/db/session.py:102-107 | on success they read the event as the document event |
| RlsSession.SessionPool.ClearRlsContext | backend/app/db/session.py:110-113 | ends the transaction of an active session and forgets its context |
| RlsSession.SessionPool.EndRequest | backend/app/db/session.py:116-125 | after a request the session holds no transaction, its connection is blank and, unless the cleanup itself raised, its context is forgotten |
| Sql.KleeneLogic | backend/alembic/versions/20260624_0011_add_logistics_operator_role.py:48-73 | AND, OR and NOT are minimum, maximum and reversal of false < unknown < true |
| Sql.NullsAreUnknown | backend/alembic/versions/20260624_0011_add_logistics_operator_role.py:48-73 | a comparison or IN with NULL is unknown, any other is true exactly for equal values or members |
| AccessAgreement.RoleTests | backend/app/core/permissions.py:46-57 | the SQL role tests on a user's context are two-valued and equal the Python role tests |
| AccessAgreement.EventRulesAgree | backend/alembic/versions/20260624_0011_add_logistics_operator_role.py:37-75 | app_can_view_event is true exactly when the event exists and can_access_event allows it; the two differ exactly for an administrator and a missing event |
| AccessAgreement.AdministratorsMissingEvent | backend/app/core/permissions.py:94-102 | an instance of that difference |
| AccessAgreement.OrderRulesAgree | backend/alembic/versions/20260624_0011_add_logistics_operator_role.py:77-105 | app_can_view_order is true exactly when can_access_order allows the order, for every role and even when its event is missing |
| AccessAgreement.EvidenceRulesAgree | backend/alembic/versions/20260624_0011_add_logistics_operator_role.py:154-162 | an evidence row passes the read policy exactly when can_view_order_evidence allows it |
| AccessAgreement.InlineEventsPolicyIsExact | backend/alembic/versions/20260708_0027_fix_events_rls_returning.py:23-50 | events_rls with row-filtered subqueries shows an event exactly when app_can_view_event does, for every caller, with or without a context |
| AccessAgreement.InlineEventsPolicySinceTasksSelect | backend/alembic/versions/20260806_0040_integrate_show_operations.py:72-74 | under tasks_select the two agree exactly when the caller is not a logistics operator related to an operable event by a task alone |
| AccessAgreement.VisibleEvents | backend/alembic/versions/20260708_0027_fix_events_rls_returning.py:23-50 | the events a user's query returns are exactly the existing ones can_access_event allows under tasks_rls and, under tasks_select, all of those but the events of an operator related by a task alone |
| AccessAgreement.AnOperatorWithOneTask | backend/alembic/versions/20260806_0040_integrate_show_operations.py:72-74 | an instance of that exception: the Python rule and app_can_view_event allow the event, and the query does not return it |
| AccessAgreement.VisibleStaffRows | backend/alembic/versions/20260610_0005_enable_row_level_security.py:191-194 | a user's query returns exactly the assignments of events the user may access and the user's own |
| AccessAgreement.VisibleTaskRows | backend/alembic/versions/20260806_0040_integrate_show_operations.py:72-74 | under tasks_rls the same for tasks; under tasks_select, role by role, exactly which task rows are returned |
| AccessAgreement.EventRuleUnfiltered | backend/app/core/permissions.py:94-102 | can_access_event answers the same over the rows its own session can read as over whole tables |
| AccessAgreement.EventRuleSinceTasksSelect | backend/alembic/versions/20260806_0040_integrate_show_operations.py:72-74 | since tasks_select it loses exactly the operators related by a task alone |
| AccessAgreement.OrderRulesUnfiltered | backend/app/core/permissions.py:146-195 | can_access_order and can_view_order_evidence answer the same through the policies as over whole tables, under either task policy |
| AccessAgreement.SessionsReadWhatTheRulesAllow | backend/app/api/deps.py:38 | end to end, under either task policy: in any interleaving, a session holding a user's context reads exactly the orders and evidences the Python rules allow that user, and exactly the events, except under tasks_select those of an operator related by a task alone |
| AccessAgreement.NobodySeesNothing | backend/alembic/versions/20260610_0005_enable_row_level_security.py:46-84 | without a context every condition is unknown or false and no row of the modelled tables is visible |
| AccessAgreement.WithoutContextNothingIsVisible | backend/app/db/session.py:110-125 | so a session that holds no context sees none of those rows, whoever used its connection before |
| RateLimit.RateLimiter.Check | backend/app/core/rate_limit.py:32-59 | the outcome and the new store of each branch, and that the other store is untouched |
| RateLimit.FloorLaws | backend/app/core/rate_limit.py:35-53 | quotient and remainder recompose, and the remainder has the sign of the divisor |
| RateLimit.AKey | backend/app/core/rate_limit.py:37 | a worked key: bucket, digest and window number, in decimal, after the prefix |
| RateLimit.ExpireRule | backend/app/core/rate_limit.py:41-42 | expire sets the deadline of its key, or deletes it when the time is not positive, and touches no other |
| RateLimit.KeysAreInjective | backend/app/core/rate_limit.py:35-37 | two calls share a key exactly when bucket, digest and window agree, even for buckets containing ':' |
| RateLimit.MemoryCounts | backend/app/core/rate_limit.py:43-46 | on every trace a memory entry holds the number of calls that share it and the window its key names |
| RateLimit.MemoryAdmission | backend/app/core/rate_limit.py:43-58 | a call is admitted exactly when at most limit - 1 calls with its bucket, identity digest and window came before, whatever the order of the clock readings |
| RateLimit.RedisEntry | backend/app/core/rate_limit.py:39-42 | a Redis entry holds the number of sharing calls since the counter's current life began and that life's deadline, and is there until the deadline |
| RateLimit.RedisCountsTheLife | backend/app/core/rate_limit.py:39-42 | the Redis count of a call is one more than the sharing calls of the current life, or one when that life is over |
| RateLimit.DecisionsDifferExactly | backend/app/core/rate_limit.py:39-58 | the stores decide a call differently exactly when memory rejects it and the calls of the counter's current life are within the limit; with any latency Redis admits what memory admits |
| RateLimit.RedisCountsExactly | backend/app/core/rate_limit.py:39-46 | the Redis count of a call equals the memory count exactly when the call reaches Redis within window + 1 seconds of the first call it shares its counter with |
| RateLimit.ASecondOfLatencyIsOnTime | backend/app/core/rate_limit.py:41-42 | one second of latency is always within that bound: no counter expires inside its own window |
| RateLimit.RedisRefinesMemory | backend/app/core/rate_limit.py:32-59 | then both stores make the same decision, with the same Retry-After, at every call of every trace |
| RateLimit.ALateCallIsForgotten | backend/app/core/rate_limit.py:41-42 | 1.5 seconds of latency let a call over the limit through |
| RateLimit.WindowAdmitsTheLimit | backend/app/core/rate_limit.py:43-58 | a window admits exactly the smaller of the calls made and the limit |
| RateLimit.AdmittedBetweenStep | backend/app/core/rate_limit.py:52 | the interval of the sliding bound holds its first instant and not its last |
| RateLimit.IntervalAdmitsTwiceTheLimit | backend/app/core/rate_limit.py:32-59 | any interval as long as the window admits at most twice the limit, on every trace |
| RateLimit.RetryAfterReachesTheNextWindow | backend/app/core/rate_limit.py:52-59 | Retry-After is between 1 and the window, is exactly the time to the next window, and a caller who is first in that window gets through |
| Text.SplitAppend | backend/app/core/rate_limit.py:69 | splitting at a separator: appending the separator and a text without it appends exactly that part |
| Text.SplitFirst | frontend/lib/chile-time.ts:22-24 | splitting a text that starts with a part without the separator gives that part and then the parts of the rest |
| Text.SplitIsInverse | backend/app/core/rate_limit.py:69 | the parts have no separator, and joined by it they are the text |
| ClientIp.PartsOfForward | backend/app/core/rate_limit.py:69 | a proxy that appends its peer's address to any header adds exactly that address to the non-empty trimmed parts |
| ClientIp.StripIsCore | backend/app/core/rate_limit.py:69 | strip takes white space off both ends and nothing else |
| ClientIp.WhiteSpace | backend/app/core/rate_limit.py:69 | the 29 characters it takes off |
| ClientIp.TheOutermostProxysPeer | backend/app/core/rate_limit.py:65-72 | behind at least the configured number of proxies the result is the address at the hop that many from the end, the one the outermost trusted proxy saw, for every header text and every hop before it |
| ClientIp.WithoutProxiesThePeer | backend/app/core/rate_limit.py:66-68 | without trusted proxies the header is not read: the result is the peer, "unknown" without a client |
| ClientIp.TooFewAddresses | backend/app/core/rate_limit.py:70-71 | a header with fewer non-empty trimmed parts than trusted proxies gives the peer |
| ClientIp.TooFewProxies | backend/app/core/rate_limit.py:70-71 | so does a chain with fewer proxies than trusted and nothing before them |
| PeopleMerge.DocumentTables.Upgrade | backend/alembic/versions/20261006_0079_greenway_global_document_people.py:19-86 | for whatever order the database visits the rows in: succeeds exactly when no row written clashes with the table at that moment, and always when no written row's email is taken at its client; then people, employments and documents are the merged tables, otherwise nothing changes |
| PeopleMerge.DocumentTables.UpdateCanonicalRows | backend/alembic/versions/20261006_0079_greenway_global_document_people.py:36-57 | the row-by-row update, in any order, stops exactly at an email clash and otherwise rewrites every canonical row |
| PeopleMerge.NullsShareNoKey | backend/alembic/versions/20261006_0077_documents_module.py:51-57 | the unique index compares client and lower-cased email, and never rows where one of them is NULL |
| PeopleMerge.NoEmailClashIsExact | backend/alembic/versions/20261006_0079_greenway_global_document_people.py:46-57 | no written row's email is taken at its client, now or after the update, if and only if the update goes through in every order |
| PeopleMerge.TheOrderCanDecide | backend/alembic/versions/20261006_0079_greenway_global_document_people.py:46-57 | four rows on which one order goes through and another fails |
| PeopleMerge.AnAdoptedEmailCanClash | backend/alembic/versions/20261006_0077_documents_module.py:44-57 | three rows that satisfy every constraint on which revision 0079 fails in every order |
| PeopleMerge.DuplicatesAreTheOthers | backend/alembic/versions/20261006_0079_greenway_global_document_people.py:24-34 | row_number() > 1 marks every row of a RUT group but the minimum by (created_at, id), which first_value() names |
| PeopleMerge.MergeTableMaps | backend/alembic/versions/20261006_0079_greenway_global_document_people.py:22-35 | the temporary table maps each duplicate, and nothing else, to the survivor of its group |
| PeopleMerge.OnePersonPerRut | backend/alembic/versions/20261006_0079_greenway_global_document_people.py:70-86 | afterwards RUTs are distinct, are the RUTs of before, and there are as many people as there were distinct RUTs |
| PeopleMerge.ReferencesFollow | backend/alembic/versions/20261006_0079_greenway_global_document_people.py:58-73 | every employment and document survives with its other columns and points to an existing person with the RUT it pointed to before; none points to a deleted one |
| PeopleMerge.SurvivorValues | backend/alembic/versions/20261006_0079_greenway_global_document_people.py:36-57 | each profile field becomes the latest duplicate's trimmed value when that is not blank and else stays; no filled field is emptied; updated_at never decreases; a person without duplicates is unchanged |
| PeopleMerge.FreshestValuesWin | backend/alembic/versions/20261006_0079_greenway_global_document_people.py:22-57 | the merged row of a group, column by column: the row created first, with the trimmed values of the most recently updated of the others, the lowest id among equals, wherever those are not blank; updated_at is the later of the two |
| PeopleMerge.TrimIsCore | backend/alembic/versions/20261006_0079_greenway_global_document_people.py:47-53 | trim takes spaces off both ends and nothing else |
| PeopleMerge.LatestIsFreshest | backend/alembic/versions/20261006_0079_greenway_global_document_people.py:37-45 | distinct on picks the most recently updated duplicate, the lowest id breaking ties |
| PeopleMerge.MergeIsIdempotent | backend/alembic/versions/20261006_0079_greenway_global_document_people.py:22-73 | a second run of the merge changes neither people nor references |
| FieldOrder.FormTables.UpgradeAddCommune | backend/alembic/versions/20260910_0062_add_bike_zone_commune.py:38-56 | every Bike Zone form has a commune, at position 9 where it is new; forms that had one and forms of other types are untouched; the fields of a form keep their relative order and distinct sort orders stay distinct |
| FieldOrder.FormTables.UpgradeNormalize | backend/alembic/versions/20260910_0063_normalize_legacy_bike_regions.py:44-82 | no field is added or lost; the region becomes a list and keeps its position; a commune below it moves to the next position; in a form of distinct sort orders they stay distinct and the other fields keep their relative order; other forms are untouched |
| FieldOrder.NormalizeAt | backend/alembic/versions/20260910_0063_normalize_legacy_bike_regions.py:55-82 | where the two ordering updates together put each field, by one formula on the order before |
| FieldOrder.MigrateKeepsOrder | backend/alembic/versions/20260910_0063_normalize_legacy_bike_regions.py:52-82 | over both revisions no field is lost, sort orders stay distinct, all fields but the commune keep their relative order, and other forms are untouched |
| FieldOrder.CommuneBelowRegion | backend/alembic/versions/20260910_0062_add_bike_zone_commune.py:36-56 | the commune ends directly below the region exactly when the sort order of the region was less than 9, or less than that of the commune if the form already had one; ties of sort order included |
| FieldOrder.ARegionAtNine | backend/alembic/versions/20260910_0062_add_bike_zone_commune.py:38-56 | a form whose region is at position 9 ends with the commune above it |
| FieldOrder.MigrateIsIdempotent | backend/alembic/versions/20260910_0063_normalize_legacy_bike_regions.py:44-82 | running either revision again changes no field |
| FamilyReference.FactorTable.SetFamilyReference | backend/alembic/versions/20261003_0074_family_waste_reference.py:24-74 | the rows after revision 0074, and that it fails exactly when the unique key refuses the write |
| FamilyReference.PickIsBest | backend/alembic/versions/20261003_0074_family_waste_reference.py:26-33 | the chosen row is a family row: the one under the family key if there is one, else an active one if there is one, and among those the oldest |
| FamilyReference.FailsOnAForeignKey | backend/alembic/versions/20261003_0074_family_waste_reference.py:35-51 | the write succeeds exactly when every row holding the family key is a family row |
| FamilyReference.AForeignKeyFails | backend/alembic/versions/20261003_0074_family_waste_reference.py:61-65 | a material row under the family key makes the revision fail |
| FamilyReference.OneActiveFamilyRow | backend/alembic/versions/20261003_0074_family_waste_reference.py:24-74 | exactly one family row is active, at 4.5 kg under FAMILY_DAILY_WASTE; the other family rows are only deactivated, rows of other kinds are untouched; a second run changes nothing |
| MaterialCatalog.CatalogTables.Upgrade | backend/alembic/versions/20261003_0075_prod_collection_material_aliases.py:103-181 | the tables after revision 0075: its calls for five materials and seven factors, in order |
| MaterialCatalog.MaterialsResolved | backend/alembic/versions/20261003_0075_prod_collection_material_aliases.py:33-53 | no row is lost, the id of an existing alias is the one returned, and afterwards every material is found under the id returned for it |
| MaterialCatalog.NoTypeMissing | backend/alembic/versions/20261003_0075_prod_collection_material_aliases.py:39-43 | when every material has an accepted row already, no row is added and those rows' ids are returned |
| MaterialCatalog.AliasesAreReused | backend/alembic/versions/20261003_0075_prod_collection_material_aliases.py:106-126 | a row under any accepted spelling of a material, each spelled out, is that material |
| MaterialCatalog.MissingMaterialsAreNamed | backend/alembic/versions/20261003_0075_prod_collection_material_aliases.py:106-126 | a catalog without any of them gets exactly the five materials, under their names and in order |
| MaterialCatalog.MaterialsAreIdempotent | backend/alembic/versions/20261003_0075_prod_collection_material_aliases.py:33-53 | a second run adds no material and returns the same ids |
| MaterialCatalog.ExistingFactorsKept | backend/alembic/versions/20261003_0075_prod_collection_material_aliases.py:70-83 | no existing factor is edited; one can only become active, and only under a key that asks for it |
| MaterialCatalog.RevisionFactors | backend/alembic/versions/20261003_0075_prod_collection_material_aliases.py:127-181 | afterwards the seven keys exist; every added factor is one of them, active and at its weight; every existing factor is as before, but the composting one is active |
| MaterialCatalog.WeightsAreRounded | backend/alembic/versions/20261003_0075_prod_collection_material_aliases.py:94 | each weight is one over the rate of the revision, to six decimals |
| MaterialCatalog.FactorsAreIdempotent | backend/alembic/versions/20261003_0075_prod_collection_material_aliases.py:56-100 | a second run of the factor calls changes nothing |
| MaterialCatalog.RevisionIsIdempotent | backend/alembic/versions/20261003_0075_prod_collection_material_aliases.py:103-181 | the whole revision, with its own materials, aliases and factors, is idempotent |
| Calendar.YearIsUnique | frontend/lib/chile-time.ts:25 | a day lies in one year only, the one YearFromDay finds (ECMA-262, section 21.4.1) |
| Calendar.Epoch | frontend/lib/chile-time.ts:25-30 | time 0 is 1 January 1970, 0:00 (ECMA-262, section 21.4.1) |
| Calendar.NextDay | frontend/lib/chile-time.ts:25-30 | each day's date is the calendar successor of the day before, month lengths and leap rule written out; with Epoch this fixes every date |
| Calendar.ClockFields | frontend/lib/chile-time.ts:28 | the fields of every instant, from its day and its milliseconds |
| Calendar.DateUtcIs | frontend/lib/chile-time.ts:25-30 | Date.UTC of a calendar time is its day number and time of day in milliseconds |
| Calendar.Overflow | frontend/lib/chile-time.ts:25 | months and days outside their range count on into the neighbouring years and months |
| Calendar.TwoDigitYears | frontend/lib/chile-time.ts:25 | Date.UTC reads the years 0 to 99 as those of the twentieth century |
| Calendar.FieldsRoundTrip | frontend/lib/chile-time.ts:25 | the fields of Date.UTC of a valid date are that date |
| Calendar.TimeRoundTrip | frontend/lib/chile-time.ts:28-30 | Date.UTC of the fields of a whole second is that second |
| ChileTime.Correct | frontend/lib/chile-time.ts:26-35 | for every wanted time whatsoever and every two-valued zone: from year 100 on, three attempts suffice to return the winter reading if it shows the time, else the summer reading, and it throws when neither does; before year 100, which Date.UTC reads as the twentieth century, it always throws; beyond the range of time values it throws a RangeError |
| ChileTime.ChileLocalToIso | frontend/lib/chile-time.ts:20-36 | the whole conversion for every text: text the regular expression refuses, text whose other parts are not numbers, and all the rest, trailing characters included |
| ChileTime.ParseSeconds | frontend/lib/chile-time.ts:24 | seconds after the minutes are read as such, and make the time invalid when they are no number |
| ChileTime.ParseTrailing | frontend/lib/chile-time.ts:24 | anything else right after the minutes is read with them |
| ChileTime.ConversionIsCorrect | frontend/lib/chile-time.ts:20-36 | from year 100 to the end of time values, an instant is returned exactly when some instant shows the wanted time, it is the latest that does, and NonExistentTime is thrown exactly when none does |
| ChileTime.ShowsTheFields | frontend/lib/chile-time.ts:28-31 | comparing UTC readings is comparing the displayed fields, for valid dates from year 100 and instants of our era |
| ChileTime.CalendarTimesConvert | frontend/lib/chile-time.ts:25-35 | every valid date and time of the years 0 to 9999 is in that range: it converts exactly when some instant shows its UTC reading, and otherwise NonExistentTime is thrown |
| ChileTime.ConvertedInstant | frontend/lib/chile-time.ts:20-36 | the instant a calendar minute converts to, in milliseconds, from its day number and the offset in force, without Date.UTC |
| ChileTime.WinterAndSummerNoon | frontend/tests/chile-time.test.cjs:20-23 | noon of 15 July and of 15 January 2026 convert to 16:00 and 15:00 UTC |
| ChileTime.LocalRoundTrip | frontend/lib/chile-time.ts:20-42 | text converted to an instant and back returns exactly when it names a minute of the calendar in a four-digit year |
| ChileTime.InstantRoundTrip | frontend/lib/chile-time.ts:20-42 | a whole-minute instant of the years 1000 to 9999 converted to text and back is unchanged, except one hour later in the first pass of a repeated hour |
| ChileTime.NonexistentDatesAreAccepted | frontend/lib/chile-time.ts:21-25 | 31 February converts as 3 March in every zone |
| ChileDay.EarliestReading | backend/app/core/time.py:25-32 | astimezone with fold 0 picks the first instant that shows the local time, and shows it exactly when some instant does |
| ChileDay.AWinterDay | backend/tests/test_chile_time.py:11-14 | 15 July 2026 runs from 04:00 UTC to 03:59:59.999999 of the next day |
| ChileDay.ConsecutiveDaysApart | backend/app/core/time.py:25-32 | the bounds of a day and of the next are disjoint exactly when clocks do not go forward as a winter clock reads 23:00 |
| ChileDay.BoundsAreTheDay | backend/app/core/time.py:25-32 | for changes at local midnight, an instant is within the bounds exactly when it falls on the local day and not in the second pass of a repeated last hour |
| ChileDay.ARepeatedHourIsMissed | backend/app/core/time.py:25-32 | a zone and an instant of day 0 outside the bounds of day 0 |
| ChileDay.DaysApart | backend/app/core/time.py:25-32 | for such zones the bounds of different days never overlap |
| Logbook.ValidateLogbook | frontend/lib/logbook-validation.ts:30-93 | each pending list is the document-order filter of all items by its requirement, the counters are the declared counts, answered + pending required + optional unanswered is the total, and complete holds exactly when no item misses anything |
| Logbook.CheckItem | frontend/lib/logbook-validation.ts:46-71 | the body of the loop: one item adds itself to exactly the lists whose requirement it misses and its own counts to the counters; it counts as answered, and is pending when required, exactly by the fields of its response, spelled out case by case |
| Logbook.AnsweredMeans | frontend/lib/logbook-validation.ts:19-28 | answered means: a status other than pending, and not applicable, a boolean, a number, a text with a non-blank character, a non-empty option, or completed with a kept evidence |
| Logbook.WhiteSpaceCharacters | frontend/lib/logbook-validation.ts:24 | the 25 characters that trim() removes (ECMA-262, sections 12.2 and 12.3) |
| Logbook.CountIsCardinality | frontend/lib/logbook-validation.ts:38-55 | the counters of answered, optional unanswered and failed items are the numbers of such positions in the document |
| Logbook.EvidenceCountIsSum | frontend/lib/logbook-validation.ts:56-57 | the evidence counter is the sum over all items of the evidences not deleted |
| Logbook.ItemsPartition | frontend/lib/logbook-validation.ts:50-52 | every item is answered, pending or optional, and only one of them |
| Logbook.EmptyPending | frontend/lib/logbook-validation.ts:86-91 | a pending list is empty exactly when no item misses its requirement |
| Logbook.AddingEvidenceHelps | frontend/lib/logbook-validation.ts:19-71 | an added active evidence removes entries from pending lists at most and never makes a complete logbook incomplete |
| Logbook.DeletingEvidenceHurts | frontend/lib/logbook-validation.ts:19-71 | a soft-deleted evidence adds entries at most and never makes an incomplete logbook complete |
| Logbook.CheckSubmission | backend/app/services/logbook_service.py:658-688 | refuses with the first failing item and its reason, and accepts exactly when no item fails |
| Logbook.ItemChecksAgree | backend/app/services/logbook_service.py:658-688 | per item, the browser is satisfied exactly when the server is and the item is not one only the browser objects to |
| Logbook.CompleteMeansAccepted | frontend/lib/logbook-validation.ts:86-91 | a logbook the browser calls complete is never refused by the server's checks, and the converse fails exactly on answers without a value and blank failure comments |
| Logbook.AnAnswerWithoutValue | frontend/lib/logbook-validation.ts:19-28 | a completed required item without a value: the server accepts it, the logbook is incomplete |
| OfflineQueue.MigrateLegacyCollectionQueue | frontend/lib/waste-offline.ts:47-75 | the resulting store is the same whichever read answers first |
| OfflineQueue.MigrationTransaction.Migrate | frontend/lib/waste-offline.ts:57-70 | does nothing until both reads have answered, then rewrites every record as specified |
| OfflineQueue.FindPoint | frontend/lib/waste-offline.ts:66 | the first point whose code or name is the old form's, none only if no point matches |
| OfflineQueue.MigrationKeepsRecords | frontend/lib/waste-offline.ts:63-69 | no record is added, lost or changed beyond token and point; exactly which records move, and to which point of the given form |
| OfflineQueue.WeightIsConserved | frontend/lib/waste-offline.ts:47-75 | the queued weight is conserved |
| OfflineQueue.WeightAdds | frontend/lib/waste-offline.ts:63-69 | the total weight is the sum of every record's weight, in any order |
| OfflineQueue.PutKeepsKeys | frontend/lib/waste-offline.ts:12-14 | put keeps every row under its own key path, from empty stores on |
| OfflineQueue.MigrationIsIdempotent | frontend/lib/waste-offline.ts:47-75 | a second migration changes nothing, also after the new form has been cached |
| PlainText.SegmentJoinsTheWords | frontend/lib/publicFormPath.ts:8-9 | replacing runs and trimming yields the words of the text joined by single separators |
| PlainText.FixedPoints | frontend/lib/publicFormPath.ts:8-9 | exactly the canonical texts are left alone |
| PlainText.AlphanumericCharacters | frontend/lib/publicFormPath.ts:8 | the 36 characters that are kept |
| PlainText.SlugifyIsCanonical | frontend/lib/publicFormPath.ts:3-10 | every slug is canonical and slugifying twice is slugifying once |
| PlainText.AnAccentedSlug | frontend/lib/publicFormPath.ts:3-10 | a worked slug: the accent goes, the capitals fall, the space becomes a hyphen |
| PlainText.PlainIsCanonical | backend/alembic/versions/20261003_0075_prod_collection_material_aliases.py:28-30 | the same for catalog names |
| PlainText.AnAccentedName | backend/alembic/versions/20261003_0075_prod_collection_material_aliases.py:28-30 | a worked catalog name |

## Left out

- Savepoints, and settings made for a whole connection instead of a transaction: outside the request protocol.
- A `set_config` call in an aborted transaction raises in the code; the model lets it change nothing and reports failure.
- Other policies on the modelled tables (write checks, public-form and operations reads of later revisions): the theorems are about the read policies named in the table.
- `Limit.parse`, the settings that choose the store, and the path taken when Redis is down: limits are given as numbers and Redis answers.
- RateLimit.KeysAreInjective: SHA-256 and the trimming and lower-casing before it are one function parameter with results of 64 characters; theorems count by digest, so identities that collide share a counter.
- RateLimit.RateLimiter.Check: the clock is read as its floor, which is what `int()` gives for the non-negative times a clock returns.
- ClientIp.TheOutermostProxysPeer: takes the header as one text; several header lines of the same name are not modelled.
- PeopleMerge.DocumentTables.Upgrade: columns the merge does not read, and index and policy statements other than the unique constraints, are not modelled; ids and timestamps are integers in their order. References are repointed by one function on the table, as one SQL statement does.
- FieldOrder.FormTables.UpgradeAddCommune: option rows of both revisions are not modelled, nor the table of forms beyond the set of Bike Zone forms.
- FamilyReference.FactorTable.SetFamilyReference: descriptive columns are one text, and `updated_at` is not modelled.
- MaterialCatalog.CatalogTables.Upgrade: descriptive columns and timestamps are left out; material ids are the upper-case hexadecimal text used in factor keys, and the ids given to new rows are parameters.
- MaterialCatalog.RevisionIsIdempotent: asks that `plain` maps the three new names with aliases to their plain spelling, as Unicode normalization does.
- ChileTime.ChileLocalToIso: the ISO text of an instant is not modelled. `Number` is a parameter giving the integer part of its value; the round trips assume it reads decimal numerals. Its rounding beyond 2^53 is not modelled.
- ChileTime.Correct: assumes that Intl writes years before year 1 by their number in the era before it, without the era.
- ChileDay.BoundsAreTheDay: the representable range of dates is not modelled; a day is its number since the epoch.
- Logbook.CheckSubmission: the assignment's own state checks and its transition are not modelled.
- OfflineQueue.MigrationTransaction.Migrate: failures of the browser's store abort the transaction and are not modelled.
- Unicode normalization, case mapping, `Intl` and the time-zone tables are function parameters with the stated assumptions.
- Logistics, purchases, logbook lifecycle and recurrence, email queue, reports, AI, scripts, routes and user interface.
