# Ledger verification model

A Dafny 4.11 model of a customer-account service: an append-only ledger written by concurrent payment
transactions, a scheduled verifier that checks the ledger incrementally from checkpoints, a versioned
account edited under an optimistic lock, a keyset-paginated account list with a literal name filter, and a
job executor with a retry budget. `dafny verify dfyconfig.toml` checks all of it.

## Layout

| file | what it holds |
|---|---|
| `Wrappers.dfy` | `Option`, `Result` |
| `Ledger.dfy` | ledger rows, the two ways to write one, the documented chain invariant |
| `LedgerWindow.dfy` | the verification query for one account, and the one-pass scan it must equal |
| `LedgerAudit.dfy` | when an incremental check equals a full check; what deletions look like |
| `LedgerVerification.dfy` | checkpoints and incidents, the repository class, the scheduler loop, the resolve handler |
| `AuditRuns.dfy` | whole verifier runs over a ledger that changes underneath them |
| `Scheduler.dfy` | target selection across accounts: bounded wait, bounded service |
| `ScheduledAudits.dfy` | the scheduler across accounts, seen from each account as a run of its own audit |
| `Accounts.dfy` | the sequential handlers (create, pay, edit) and what every request history satisfies |
| `VersionedHistory.dfy` | the flush-time history recipe |
| `Sessions.dfy` | the edit and resolve handlers as written, over a repository session and a transaction session |
| `Interleaving.dfy` | many transactions on one account, one statement at a time; serialisability |
| `LedgerSystem.dfy` | writers and verifier together: no false alarms, nothing behind a checkpoint |
| `CursorOrder.dfy`, `AccountListing.dfy` | the keyset condition, the list operation, chained pages |
| `LikeEscape.dfy` | the escaped `ILIKE` pattern |
| `RetryExecutor.dfy` | retry budget and delays |

## How the service is read

- Amounts are integer cents, without the `Numeric(16,2)` bound. UUIDs are integers, instants are readings of a clock.
- One account's ledger is a sequence in primary-key order, so `ORDER BY no` is the sequence order. An empty
  table, gaps, altered balances and missing checkpoint rows are all admitted.
- Statements read the latest committed state (READ COMMITTED). `SELECT ... FOR UPDATE` and `UPDATE` on the
  account row exclude each other until the transaction ends. A statement and the local code after it, up to
  the next statement, are one step. Any transaction may roll back at any step. Accounts share no row lock and
  no ledger key, so the interleavings of one account are taken on their own.
- A verifier run takes the lock and reads its batch in one step and commits in another, and other transactions may
  run in between; the advisory lock allows one run at a time, and each insert of a run reads the clock for itself.
  The database's and the service's clock are one clock. Resolve is one step.
- `Accounts.dfy`, `LedgerVerification.dfy`, `AuditRuns.dfy`, `Scheduler.dfy` and `Interleaving.dfy` read an accepted edit
  or resolve as one that reaches the tables, which is what the tests wire (`tests/conftest.py:209-220`) and what the
  handlers are written for. `Sessions.dfy` says when that is so.
- When two edits race, the loser is rejected. Whether it sees the stale-data error (409) or a duplicate key in the
  history table depends on the order in which the flush emits its statements; the model has one rejection.
- The version token is an injective tag of (id, version).
- Column values of the list are compared by order only and are modelled as reals, in which every countable ordered set embeds.
- An update whose values all equal the stored ones changes nothing: no history row, no new version, no UPDATE.

## Where code and documentation differ

- `src/statement/app/enums/account.py:13-14` says that for `gap_balance` *expected - actual* is what the missing
  rows summed to. The code gives *actual - expected* (`LedgerAudit.DeletionClassified`), and so does the fixture at
  `tests/app/consumers/test_schedulers_main.py:343-398`.
- The genesis row carries the account's own id as its operation id. A payment whose id equals the account id is
  therefore dropped as a duplicate although it was never applied (`Accounts.AccountIdAsPaymentIdIsSwallowed`);
  `Accounts.AcceptedIff` gives the exact condition under which a payment is accepted.
- A checkpoint is trusted without looking at earlier rows again. `LedgerAudit.IncrementalAgreesIffTruthful` shows that
  the incremental check equals the full one if and only if the checkpoint is truthful, and
  `LedgerAudit.DeletionUnnoticedIffTruncation` that the only deletions a full scan cannot see are truncations.
- As deployed, an edit or a resolve never reaches the tables. The handlers get their repository from `get_session` and
  their transaction from `get_tx_session` (`src/statement/fast_deps.py:21-22,83-92`, `src/statement/deps.py:22-29`), which
  are two sessions, and only the second is ever committed. A resolve that answers 204 has written its checkpoint and
  its `resolved_at` into the first, so both are lost when it closes and the account stays quarantined. An update or
  delete that passes the token check adds an object of the first session to the second and ends in an error.
  `Sessions.ResolveTakesEffectIff` and `Sessions.EditTakesEffectIff`: the tables change if and only if the two sessions
  are the same one; `Sessions.AcceptedResolveIsLost` and `Sessions.AcceptedEditIsLost` show inputs where they do not.
  Creating an account, the payment consumer and the verifier use one session each and are not affected.
- A cursor is dropped only if a field the list is sorted by is missing in it; the list then starts over. Any other
  cursor, one issued under another direction or under more fields included, is accepted and skips every row that is
  not strictly after its key in the order asked for now (`AccountListing.CursorMeaning`,
  `AccountListing.CursorRestartsIff`). `AccountListing.OtherDirectionSkips` is a cursor behind which nothing is listed.

## Model

| member | source | states |
|---|---|---|
| Ledger.BalanceIsTotal | src/statement/infra/repository/ledger_verification.py:3-7 | under the documented invariant the stored balance of every row is the sum of all amounts up to it |
| Ledger.FollowExtendsChain | src/statement/domain/entities/account.py:160-178 | a row written by `follow` after the last row keeps numbering dense and the running balance right |
| LedgerWindow.QueryIsScan | src/statement/infra/repository/ledger_verification.py:79-144 | window, LAG, CASE, first break and tail together give the verdict of a left-to-right scan of the window that stops at the first break, for any ledger and any anchor |
| LedgerWindow.CleanScanIffValidChain | src/statement/infra/repository/ledger_verification.py:3-7 | the full scan is clean exactly on ledgers that satisfy the documented invariant |
| LedgerWindow.BatchRowPassesAnchor | src/statement/infra/repository/ledger_verification.py:71-91 | a ledger with a row beyond the anchor always yields a batch row whose window passes the anchor, and a break sits on the anchor or strictly beyond its predecessor |
| LedgerAudit.LastGoodCountsAndSums | src/statement/app/dto/main.py:25-39 | last good number and balance are the anchor's plus the count and the sum of the good rows after it; a break is at the very next row |
| LedgerAudit.AnchorBreakIffAltered | src/statement/infra/repository/ledger_verification.py:102-104 | `anchor_balance` is reported exactly when the checkpointed row exists with another balance |
| LedgerAudit.IncrementalAgreesIffTruthful | src/statement/infra/repository/ledger_verification.py:9-13 | a check from a checkpoint gives the outcome of a check from row 1 if and only if the checkpoint is truthful |
| LedgerAudit.CheckpointCarriesForward | src/statement/infra/repository/ledger_verification.py:79-144 | from a truthful checkpoint, any bounded window leaves a truthful checkpoint, and a break it reports is the full scan's first break with the same kind, expected and actual balance |
| LedgerAudit.AppendsPreserve | src/statement/infra/repository/ledger_verification.py:9-13 | rows appended behind the last one invalidate neither a truthful checkpoint nor a first break |
| LedgerAudit.DeletionClassified | src/statement/infra/repository/ledger_verification.py:100-124 | after deletions from a valid chain the first break is the first survivor after the first gap; it is `gap` exactly when the missing amounts sum to zero, otherwise `gap_balance` with actual minus expected equal to that sum |
| LedgerAudit.DeletionUnnoticedIffTruncation | src/statement/infra/repository/ledger_verification.py:100-124 | a deletion goes unnoticed by the full scan if and only if the survivors are a prefix of the chain |
| LedgerAudit.DeletionReported | src/statement/infra/repository/ledger_verification.py:79-144 | a run from any checkpoint below the hole whose window reaches the survivor reports exactly that break |
| LedgerVerification.EligibleFits | src/statement/infra/repository/ledger_verification.py:43-93 | every targeted account comes back from the query, unquarantined, with a window that passes its checkpoint |
| LedgerVerification.RecordAdvances | src/statement/app/consumers/schedulers/main.py:53-72 | a run's inserts meet no conflict clause, move the checkpoint to the last good row, store the break as found, and keep checkpoints ascending with at most one open incident on the latest one |
| LedgerVerification.ServedMakesProgress | src/statement/infra/repository/ledger_verification.py:194-223 | a served account strictly raises its checkpoint or is quarantined, or both |
| LedgerVerification.ResolveAdvances | src/statement/app/routers/admin/account.py:261-308 | a resolve moves the checkpoint forward to the requested (or broken) row with that row's own balance, closes only the open incident, and keeps all older checkpoints |
| LedgerVerification.ResolveDecides | src/statement/app/routers/admin/account.py:261-299 | a resolve succeeds if and only if an incident is open, a row is named (the requested one, or the broken one unless the break is on the checkpointed row), the row lies beyond the last checkpoint and the ledger has it; which of the four errors each failing condition gives |
| LedgerVerification.DefaultResolve | src/statement/app/routers/admin/account.py:268-299 | without an explicit row a resolve never fails the "must be greater" check, and succeeds exactly when the break is not on the anchor and the broken row still exists |
| LedgerVerification.RecordBatch | src/statement/app/consumers/schedulers/main.py:51-72 | the loop records every verification of the batch in order, each at its own clock reading, and counts breaks and checkpoints |
| Scheduler.VerifyCustomerAccountLedger | src/statement/app/consumers/schedulers/main.py:24-80 | without the lock the job changes nothing; with it, the job is one read step of the batch query followed by one commit step of the state machine |
| LedgerVerification.RecordAllPerAccount | src/statement/app/consumers/schedulers/main.py:53-72 | each account in a batch gets exactly its own record, all others are untouched |
| LedgerVerification.Repository.InsertCheckpoint | src/statement/infra/repository/ledger_verification.py:177-192 | afterwards the account has a checkpoint at that row: nothing has changed if it had one, otherwise the new one is stored last; no other book changes |
| LedgerVerification.Repository.RecordVerified | src/statement/infra/repository/ledger_verification.py:194-199 | the last good row is checkpointed once; if the verification started from the account's checkpoint, that row with its balance becomes the latest checkpoint |
| LedgerVerification.Repository.RecordDiscrepancy | src/statement/infra/repository/ledger_verification.py:201-223 | raises without a break; otherwise the account is quarantined afterwards, by the incident it had open or else by this one |
| LedgerVerification.AddIncidentKeepsTheFirst | src/statement/infra/repository/ledger_verification.py:216-223 | an incident is stored, and is then the open one, exactly if none is open; otherwise nothing is stored |
| LedgerVerification.Repository.ResolveDiscrepancy | src/statement/app/routers/admin/account.py:261-308 | what the handler writes through its repository's session is what `ResolveDecides` and `ResolveAdvances` describe, its four error cases writing nothing |
| AuditRuns.OpenIncidentInvariant | src/statement/app/consumers/schedulers/main.py:53-72 | in every state of every run, however the ledger is tampered with, checkpoints ascend, at most one incident is open and its predecessor is the latest checkpoint |
| AuditRuns.CommitRecords | src/statement/app/consumers/schedulers/main.py:53-72 | in every run, a commit leaves the last checkpoint at the last good row that was read, with its balance and the time of the insert if it is a new one, and quarantines the account exactly if a break was read, by an open incident that shows it field for field; one of the two happens |
| AuditRuns.DefaultResolveNeverBehind | src/statement/app/routers/admin/account.py:288-292 | in every such state a resolve without an explicit row never hits the "must be greater" error |
| AuditRuns.CheckpointsEqualFullScan | src/statement/infra/repository/ledger_verification.py:41-145 | for any window size and any outside writes that leave covered rows alone, every checkpoint at every moment is what a one-pass scan from row 1 says |
| AuditRuns.BreakReadEqualsFullScan | src/statement/infra/repository/ledger_verification.py:100-145 | in those runs the break a run reads is the full scan's first break of the ledger it reads |
| AuditRuns.IncidentsEqualFullScan | src/statement/infra/repository/ledger_verification.py:201-223 | while rows are only appended, every recorded incident is and stays the full scan's first break, field for field |
| Scheduler.RunPerAccount | src/statement/app/consumers/schedulers/main.py:43-72 | a committed run changes only its targets, and each target raises its checkpoint at a time no earlier than the run's read, or is quarantined |
| Scheduler.StepKeepsDbOk | src/statement/app/consumers/schedulers/main.py:26-72 | whatever commits between a run's read and its commit, what the run read about its targets' books is still so when it writes |
| ScheduledAudits.EveryStepIsOwnStep | src/statement/app/consumers/schedulers/main.py:26-72 | every step of the scheduler across accounts is, for each account, a step of that account's own audit or does not concern it |
| ScheduledAudits.EveryRunIsOwnRun | src/statement/app/consumers/schedulers/main.py:26-72 | so a run of the scheduler is, for each account, a run of its own audit that ends with the same ledger, book and verification under way |
| ScheduledAudits.EveryAccountEqualsFullScan | src/statement/infra/repository/ledger_verification.py:41-145 | under the scheduler, as long as an account is only appended to and not force-resolved, all its checkpoints and incidents are those of a one-pass scan from row 1 |
| ScheduledAudits.EveryAccountIsInOrder | src/statement/app/consumers/schedulers/main.py:53-72 | under the scheduler, whatever happens to ledgers, at most one incident of an account is open and it sits on the latest checkpoint |
| Scheduler.EligibleIffDue | src/statement/infra/repository/ledger_verification.py:55-75 | the WHERE clause holds exactly of an account without open incident that has a row beyond its last checkpoint and was never verified, or whose checkpoint is older than the maximum age, or that has a full window of unverified rows |
| Scheduler.OnlyDueAreTargeted | src/statement/infra/repository/ledger_verification.py:55-77 | every answer of the query consists of accounts that are due |
| Scheduler.FreshOrQuarantinedIsNotTargeted | src/statement/infra/repository/ledger_verification.py:55-70 | an account in quarantine, or with a fresh checkpoint and less than a window of unverified rows, is in no answer |
| Scheduler.SelectionExists | src/statement/infra/repository/ledger_verification.py:55-77 | the query always has an answer: the due accounts, earliest verified first, as many as a run takes |
| Scheduler.WaitingStep | src/statement/infra/repository/ledger_verification.py:55-77 | until served, an eligible account stays eligible, nobody overtakes it, and each run that read its batch meanwhile serves a full complement of accounts ahead of it when it commits |
| Scheduler.BoundedWait | src/statement/infra/repository/ledger_verification.py:55-77 | with k accounts ahead, an eligible account is served within ceil((k+1)/accounts_per_run) committed runs (one more if a run is under way), with appends, resolves, aborted runs and newly eligible accounts in between, also between a run's read and its commit |
| Scheduler.DueIsServed | src/statement/infra/repository/ledger_verification.py:55-77 | an account that is due, by its rows, last checkpoint, incidents and the clock alone, is served within ceil((k+1)/accounts_per_run) committed runs (one more if a run is under way), and its checkpoint rises then or a break of it is recorded |
| Scheduler.CleanServe | src/statement/infra/repository/ledger_verification.py:155-175 | serving a clean ledger moves the checkpoint by exactly one window, or to the last row |
| Scheduler.EarlyServiceFillsWindow | src/statement/infra/repository/ledger_verification.py:56-65 | an account served before its checkpoint is stale always advances by rows_per_account |
| Scheduler.ServedAtMost | src/statement/infra/repository/ledger_verification.py:56-75 | a fixed clean ledger with N unverified rows is served at most ceil(N/rows_per_account) times |
| Accounts.HandleKeepsStoreOk | src/statement/domain/entities/account.py:145-192 | every handler keeps the chain valid, balances non-negative, operation ids distinct, the genesis row first and the history versions dense |
| Accounts.ExactlyOnceAndConserved | src/statement/app/consumers/entrypoints/main.py:159-206 | under any redelivery no operation id is accepted twice, no stored balance is negative, and the last balance is the sum of the accepted amounts |
| Accounts.LedgerRecordsAccepted | src/statement/app/consumers/entrypoints/main.py:198-206 | the ledger is the genesis row followed by one row per accepted payment, in order |
| Accounts.AcceptedIff | src/statement/app/consumers/entrypoints/main.py:135-206 | after any history a payment is accepted exactly when the account is active, its id is new and not the account's own, and the accepted amounts can bear it |
| Accounts.PaymentDecides | src/statement/app/consumers/entrypoints/main.py:135-206 | after any history, the outcome of a payment in all cases, and the row it appends when accepted: next number, and balance the sum of all accepted amounts |
| Accounts.DroppedIffSeenBefore | src/statement/app/consumers/entrypoints/main.py:159-167 | for an active account the duplicate branch is taken exactly for ids accepted before and for the account's own id |
| Accounts.AccountIdAsPaymentIdIsSwallowed | src/statement/domain/entities/account.py:153-155 | a concrete first delivery that is dropped as a duplicate |
| Interleaving.HistoryOverInterleavings | src/statement/persistence/versioned_history.py:232-313 | in every interleaving, at version v the history holds exactly versions 1..v-1, and a state committed at any moment is at every later moment still current or archived under the version it had |
| Interleaving.LogOnlyGrows | src/statement/app/consumers/entrypoints/main.py:132-206 | what one moment's log says stays said at every later moment |
| Interleaving.LaterEditHasNewerToken | src/statement/app/routers/admin/account.py:122-134 | in every interleaving, of two committed edits the later one carried a strictly newer token |
| Accounts.NoTokenWinsTwice | src/statement/app/routers/admin/account.py:122-134 | of two written edits the later one carries a strictly newer token |
| Accounts.ChangesComeFromEdits | src/statement/app/routers/admin/account.py:128-134 | customer and currency never change, and any other change between two moments is what a written edit in between asked for |
| Accounts.DeletedIsAbsorbing | src/statement/app/routers/admin/account.py:115-173 | after a delete no request changes the account, its history or its ledger |
| Accounts.EditDoesAsAsked | src/statement/app/routers/admin/account.py:115-173 | an edit under the current token of a live account leaves it exactly as asked, Deleted for a delete, unchanged if it was so before and otherwise one version on with the old state archived; any other edit is rejected and changes nothing |
| Accounts.CreationStoresAsGiven | src/statement/domain/entities/account.py:75-97 | a creation stores customer, currency, name and actor as given, active, at version 1, with the zero opening row; a second one is rejected |
| Accounts.Database.OnCreatePayment | src/statement/app/consumers/entrypoints/main.py:128-208 | the handler's checks in order, every early exit leaving the ledger alone |
| Accounts.Database.CreateCustomerAccount | src/statement/app/routers/admin/account.py:51-98 | account and genesis row together, or an integrity error and nothing, also when another account has the customer and currency |
| VersionedHistory.Instance.CreateVersion | src/statement/persistence/versioned_history.py:232-313 | archives every column as loaded and bumps the version exactly when some column differs or the object is deleted |
| VersionedHistory.Flush | src/statement/persistence/versioned_history.py:308-322 | updates and archives only on the loaded version, otherwise reports stale data and changes nothing |
| VersionedHistory.FlushSession | src/statement/persistence/versioned_history.py:316-322 | hook and flush together: unchanged, written only on the loaded version and with the loaded state archived, or rejected on a moved version |
| Sessions.EditAccount | src/statement/app/routers/admin/account.py:102-173 | the update and delete handlers over a repository and a transaction session: over one, the account ends exactly as asked (`EditMeans`) with the sequential outcome; over two, an edit to be written is an error without effect |
| Sessions.EditRequest | src/statement/deps.py:22-29 | an edit request from opening to closing its sessions: over one session the tables end as asked, over two they never change and a current token ends in an error |
| Sessions.EditTakesEffectIff | src/statement/fast_deps.py:83-86 | an edit to be written reaches the tables if and only if repository and transaction share a session, and is an error otherwise |
| Sessions.AcceptedEditIsLost | src/statement/app/routers/admin/account.py:128-134 | a rename under the current token that ends in an error over two sessions and in version 2 over one |
| Sessions.ResolveRequest | src/statement/app/routers/admin/account.py:238-308 | a resolve request leaves in the account's book what its wiring lets through, and touches no other account and no ledger row |
| Sessions.ResolveTakesEffectIff | src/statement/fast_deps.py:89-92 | an accepted resolve changes the tables and lifts the quarantine if and only if both sessions are the same, though it answers success either way |
| Sessions.AcceptedResolveIsLost | src/statement/app/routers/admin/account.py:301-308 | a quarantined account with a gap whose resolve succeeds and stays without effect |
| Sessions.TwoSessionsChangeNothing | src/statement/deps.py:22-29 | over two sessions no series of edits and resolves ever changes the tables |
| Interleaving.Serialisable | src/statement/app/consumers/entrypoints/main.py:132-206 | in every interleaving the committed account, history and ledger equal the sequential handlers run over the log, with the same outcome for every call |
| Interleaving.RowsAppearInOrder | src/statement/infra/repository/account.py:20-28 | committed rows are exactly 1..n and a flushed uncommitted row is n+1, under the row lock |
| Interleaving.FlushNeverViolates | src/statement/domain/entities/account.py:180-192 | the insert never violates either unique key |
| Interleaving.DeletedStays | src/statement/app/routers/admin/account.py:115-173 | no interleaving of pending edits and payments changes a deleted account |
| Interleaving.NoRowsWhileInactive | src/statement/app/consumers/entrypoints/main.py:152-161 | no ledger row is committed while the committed status is not ACTIVE |
| Interleaving.EditsBuildOnLatest | src/statement/persistence/versioned_history.py:308-322 | in every interleaving a committed edit carried the token of the state committed immediately before it, and made of it exactly what was asked, archiving it |
| Interleaving.StaleEditIsRejected | src/statement/app/routers/admin/account.py:122-134 | flushing succeeds exactly when the loaded row is still the committed one; otherwise the edit is rejected without effect |
| Interleaving.UncontendedPayment | src/statement/app/consumers/entrypoints/main.py:132-206 | left alone, a payment's statements run through to the handler's outcome, whichever of the six it is, with the handler's effect |
| Interleaving.UncontendedEdit | src/statement/app/routers/admin/account.py:115-134 | left alone, load, flush and commit of an edit have the handler's effect and outcome |
| Interleaving.UncontendedCreate | src/statement/app/routers/admin/account.py:51-98 | left alone, a creation's account and opening row appear together, as the handler stores them |
| LedgerSystem.NoFalseAlarms | src/statement/app/consumers/schedulers/main.py:43-72 | when all rows come from the handlers, no interleaving with the verifier ever records or holds a break, and each checkpoint is a committed row's balance |
| LedgerSystem.NothingBehindACheckpoint | src/statement/infra/repository/ledger_verification.py:9-13 | rows that become visible later, and the row that is flushed but uncommitted, are numbered above every checkpoint that is stored or about to be stored |
| LedgerSystem.NeitherBlocksTheOther | src/statement/infra/repository/ledger_verification.py:9-13 | whatever a writer or the verifier can do alone it can do in the system |
| CursorOrder.BuildCursorCondition | src/statement/read/repository/account.py:27-53 | unequal lengths are an error; otherwise the built OR of ANDs holds of a row exactly when it comes strictly after the cursor |
| CursorOrder.ConditionIsOrder | src/statement/read/repository/account.py:31-53 | the disjunction of alternatives is the lexicographic order |
| CursorOrder.PrecedesTransitive | src/statement/read/repository/account.py:115-116 | the ORDER BY relation is transitive |
| CursorOrder.PrecedesTotal | src/statement/read/repository/account.py:115-116 | with the id last, two rows with different ids are ordered exactly one way |
| AccountListing.CollectSort | src/statement/read/repository/account.py:90-122 | the sort loop builds the ordering, and accepts the cursor exactly when it has every sorted field |
| AccountListing.ListAll | src/statement/read/repository/account.py:60-167 | the list operation as written returns the page and next cursor that the lemmas below are about |
| AccountListing.PageContinues | src/statement/read/repository/account.py:118-125 | the page behind the cursor of row k starts at row k+1 of the full ordered list |
| AccountListing.PageHasAskedSize | src/statement/read/repository/account.py:73-165 | a page has the asked number of rows (20 if none or zero is asked), as far as there are any, from the start of the list or behind the cursor; there is a next cursor exactly when it is full, and it holds the last row's id and sorted fields |
| AccountListing.NextPageHasAskedSize | src/statement/read/repository/account.py:73-165 | likewise the page behind the cursor of any row of the list |
| AccountListing.ChainedPagesRebuildTheList | src/statement/read/repository/account.py:90-165 | whoever follows the cursors from the first page until there is none gets exactly floor(N/limit)+1 pages, and their concatenation is the full ordered list |
| AccountListing.ChainHasAskedLength | src/statement/read/repository/account.py:73-165 | with n rows asked for (20 if none or zero) the chain has floor(N/n)+1 pages |
| AccountListing.FollowingCursorsEnds | src/statement/read/repository/account.py:152-165 | following the cursors always comes to an end |
| AccountListing.FullListIsSelection | src/statement/read/repository/account.py:115-143 | the full list holds every matching account once, strictly ordered |
| AccountListing.ListIsSortedAsAsked | src/statement/read/repository/account.py:92-116 | the list is sorted by currency, status and creation time as the query names them, in the directions it asks for, and by newest id in the end |
| AccountListing.ListedIffFiltersHold | src/statement/read/repository/account.py:127-143 | an account is listed exactly when its name contains the text up to case and the other filters hold |
| AccountListing.CursorMeaning | src/statement/read/repository/account.py:101-125 | for any cursor: if it lacks the value of a sorted field the page is the first page; otherwise the page is the start of exactly those rows of the full list that lie strictly after the cursor's key, whether or not the list still has the row the cursor came from |
| AccountListing.CursorRestartsIff | src/statement/read/repository/account.py:101-125 | a cursor leaves the page as it would be without one if and only if a sorted field is missing in it, nothing is listed, or the first row already lies after its key |
| AccountListing.OtherDirectionSkips | src/statement/read/repository/account.py:101-122 | a cursor taken from the list in the other direction is accepted and yields a page without any row |
| LikeEscape.EscapeIsOnePass | src/statement/read/repository/account.py:128-130 | the three chained replacements, in the code's order, are a one-pass escape |
| LikeEscape.FilterMeansContains | src/statement/read/repository/account.py:127-131 | for all texts, the filter matches exactly the names that contain the folded text |
| LikeEscape.FilterFindsText | src/statement/read/repository/account.py:127-131 | in the caller's terms: the filter matches exactly the names in which some stretch equals the given text character by character up to case |
| RetryExecutor.LifetimeEndsAtFirstSettling | src/statement/app/consumers/executor.py:24-47 | a job is retried up to its first settling attempt, with that attempt's delay each time, and the hook is called once if it ends in failure |
| RetryExecutor.RetryBudget | src/statement/app/consumers/executor.py:30-37 | a job that always fails runs max_attempts+1 times and the hook fires once, on the last |
| RetryExecutor.DelaysGrowToTheCap | src/statement/app/consumers/executor.py:33-36 | for multiplier at least 1 delays never shrink and never exceed the cap |
| RetryExecutor.DelayRecurrence | src/statement/app/consumers/executor.py:33-36 | each delay is the previous one times the multiplier, capped |
| RetryExecutor.PaymentWaitsForItsAccount | src/statement/app/consumers/entrypoints/main.py:135-146 | a payment that precedes its account is retried until the account is committed and settled by the first attempt that sees it |

## Left out

- FastAPI, FastStream, RabbitMQ and pgqueuer internals: delivery is at least once, with an attempts counter.
- SQL text execution and SQLAlchemy mapper construction: only the meaning of the queries and the flush-time step are modelled; inheritance cases of the history recipe do not occur for the account.
- Accounts.HandleKeepsStoreOk: takes creations that the key (customer_id, currency) lets through; a refused one changes nothing and is only in `Accounts.Database.CreateCustomerAccount`.
- VersionedHistory.Instance.CreateVersion: leaves out the relationship check, since no handler touches the relationship, and the columns id, created_at and updated_at, which are constant or set by the database.
- The job enqueued by account creation: it goes through another session's connection and does not touch the modelled tables.
- Two overlapping resolves of one discrepancy: the router does not serialise them, so resolve is one atomic step.
- LedgerVerification.RecordBatch: a break and a checkpoint of the same verification share one clock reading.
- AuditRuns.CheckpointsEqualFullScan: excludes force-resolved breaks, after which a checkpoint is accepted rather than checked.
- CursorOrder.BuildCursorCondition: for an empty ordering the condition is false here; the list always appends the id column, so it does not occur.
- RetryExecutor.RetryBudget: takes the hook not to raise; delays are exact reals, without microsecond rounding.
- Cursor encoding, request parsing, tokens' cryptography, logging, heartbeats, health checks, request ids and migrations: library wrappers without ledger logic.
