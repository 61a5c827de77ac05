/**
 The scheduler across accounts: which ones a run targets, how long an account can wait for its turn,
 and how often one account can be served.
 */
module Scheduler {
  import opened Wrappers
  import opened Ledger
  import opened LedgerWindow
  import opened LedgerAudit
  import opened LedgerVerification

  datatype Account = Account(rows: seq<Row>, book: Book)

  /** A run that has read its batch and not committed yet. */
  datatype Run = Run(targets: seq<Uuid>, batch: seq<Verification>, startedAt: int)

  datatype Db = Db(accounts: map<Uuid, Account>, clock: int, pending: Option<Run>)

  ghost predicate EligibleIn(db: Db, settings: Settings, a: Uuid) {
    a in db.accounts && Eligible(db.accounts[a].rows, db.accounts[a].book, db.clock, settings)
  }

  function VerifiedAtOf(db: Db, a: Uuid): Option<int>
    requires a in db.accounts
  {
    VerifiedAt(db.accounts[a].book)
  }

  /** Sorts before, or ties, in `verified_at ASC NULLS FIRST`. */
  predicate NotLater(a: Option<int>, b: Option<int>) {
    a.None? || (b.Some? && a.value <= b.value)
  }

  /** Any answer the `targets` query may give: ties in `verified_at` are broken arbitrarily. */
  ghost predicate IsSelection(db: Db, settings: Settings, targets: seq<Uuid>) {
    && |targets| <= settings.accountsPerRun
    && (forall i, j :: 0 <= i < j < |targets| ==> targets[i] != targets[j])
    && (forall i :: 0 <= i < |targets| ==> EligibleIn(db, settings, targets[i]))
    && (forall i, j :: 0 <= i < j < |targets| ==> NotLater(VerifiedAtOf(db, targets[i]), VerifiedAtOf(db, targets[j])))
    && (forall a :: a !in targets && EligibleIn(db, settings, a) ==>
          && |targets| == settings.accountsPerRun
          && forall i :: 0 <= i < |targets| ==> NotLater(VerifiedAtOf(db, targets[i]), VerifiedAtOf(db, a)))
  }

  function Batch(db: Db, settings: Settings, targets: seq<Uuid>): seq<Verification> {
    if targets == [] then []
    else
      var before, a := Batch(db, settings, targets[..|targets| - 1]), targets[|targets| - 1];
      if a !in db.accounts then before
      else
        match Examine(a, db.accounts[a].rows, db.accounts[a].book, settings)
        case None => before
        case Some(v) => before + [v]
  }

  function Books(db: Db): map<Uuid, Book> {
    map a | a in db.accounts :: db.accounts[a].book
  }

  /**
   A run is two steps, its one read and its commit; the advisory lock admits one run at a time, and other
   transactions commit in between. Each insert reads the clock for itself.
   */
  datatype DbStep =
    | ReadBatch(targets: seq<Uuid>)
    | CommitRun(times: seq<int>)
    | AbortRun
    | LedgerGrows(account: Uuid, rows: seq<Row>)
    | ResolveBreak(account: Uuid, requested: Option<int>, resolver: Uuid)
    | TimePasses

  /** New rows may appear and stored amounts may even be altered, but no row number disappears. */
  ghost predicate Grows(rows: seq<Row>, rows': seq<Row>) {
    InKeyOrder(rows') && forall i :: 0 <= i < |rows| ==> HasRow(rows', rows[i].no)
  }

  predicate HasRow(rows: seq<Row>, no: int) {
    exists i :: 0 <= i < |rows| && rows[i].no == no
  }

  /** The clock readings of a run's inserts lie between its read and its commit. */
  ghost predicate ReadDuring(times: seq<int>, run: Run, now: int) {
    |times| == |run.batch| && forall i :: 0 <= i < |times| ==> run.startedAt <= times[i] <= now
  }

  function WithBooks(accounts: map<Uuid, Account>, books: map<Uuid, Book>): map<Uuid, Account> {
    map a | a in accounts :: Account(accounts[a].rows, BookOf(books, a))
  }

  ghost predicate DbNext(settings: Settings, s: Db, step: DbStep, s': Db) {
    && s'.clock > s.clock
    && match step
       case ReadBatch(targets) =>
         && s.pending.None? && IsSelection(s, settings, targets)
         && s'.accounts == s.accounts && s'.pending == Some(Run(targets, Batch(s, settings, targets), s.clock))
       case CommitRun(times) =>
         && s.pending.Some? && ReadDuring(times, s.pending.value, s.clock)
         && s'.accounts == WithBooks(s.accounts, RecordAll(Books(s), s.pending.value.batch, times))
         && s'.pending.None?
       case AbortRun => s'.accounts == s.accounts && s'.pending.None?
       case LedgerGrows(account, rows) =>
         && account in s.accounts && Grows(s.accounts[account].rows, rows)
         && s'.accounts == s.accounts[account := s.accounts[account].(rows := rows)]
         && s'.pending == s.pending
       case ResolveBreak(account, requested, resolver) =>
         && account in s.accounts
         && s'.accounts ==
            (match Resolve(s.accounts[account].rows, s.accounts[account].book, requested, resolver, s.clock)
             case Err(_) => s.accounts
             case Ok(book) => s.accounts[account := s.accounts[account].(book := book)])
         && s'.pending == s.pending
       case TimePasses => s'.accounts == s.accounts && s'.pending == s.pending
  }

  predicate Earlier(verifiedAt: Option<int>, now: int) {
    verifiedAt.None? || verifiedAt.value < now
  }

  ghost predicate AccountOk(account: Account, clock: int) {
    && InKeyOrder(account.rows) && BookOk(account.book)
    && Earlier(VerifiedAt(account.book), clock)
  }

  /** What a run has read about its targets' books is still so: nobody else writes to them. */
  ghost predicate RunOk(accounts: map<Uuid, Account>, run: Run) {
    && |run.batch| == |run.targets|
    && (forall i, j :: 0 <= i < j < |run.targets| ==> run.targets[i] != run.targets[j])
    && forall i :: 0 <= i < |run.targets| ==> IsFor(accounts, run.targets[i], run.batch[i], run.startedAt)
  }

  ghost predicate IsFor(accounts: map<Uuid, Account>, a: Uuid, v: Verification, startedAt: int) {
    && a in accounts && v.accountId == a && Fits(accounts[a].book, v)
    && Earlier(VerifiedAt(accounts[a].book), startedAt)
  }

  ghost predicate DbOk(s: Db) {
    && (forall a :: a in s.accounts ==> AccountOk(s.accounts[a], s.clock))
    && (s.pending.Some? ==> s.pending.value.startedAt <= s.clock && RunOk(s.accounts, s.pending.value))
  }

  ghost predicate IsExamined(db: Db, settings: Settings, a: Uuid, v: Verification) {
    a in db.accounts && Some(v) == Examine(a, db.accounts[a].rows, db.accounts[a].book, settings)
  }

  /** Distinct targets come back one verification each, made for the target's book. */
  lemma {:induction false} BatchOfTargets(db: Db, settings: Settings, targets: seq<Uuid>)
    requires DbOk(db) && settings.rowsPerAccount >= 1
    requires forall i :: 0 <= i < |targets| ==> EligibleIn(db, settings, targets[i])
    ensures |Batch(db, settings, targets)| == |targets|
    ensures forall i :: 0 <= i < |targets| ==> IsFor(db.accounts, targets[i], Batch(db, settings, targets)[i], db.clock)
    ensures forall i :: 0 <= i < |targets| ==> IsExamined(db, settings, targets[i], Batch(db, settings, targets)[i])
  {
    if targets != [] {
      var last := |targets| - 1;
      var a := targets[last];
      BatchOfTargets(db, settings, targets[..last]);
      assert EligibleIn(db, settings, a) && AccountOk(db.accounts[a], db.clock);
      EligibleFits(a, db.accounts[a].rows, db.accounts[a].book, db.clock, settings);
      var batch := Batch(db, settings, targets);
      forall i | 0 <= i < |targets|
        ensures IsFor(db.accounts, targets[i], batch[i], db.clock) && IsExamined(db, settings, targets[i], batch[i])
      {
        if i < last {
          assert targets[..last][i] == targets[i] && Batch(db, settings, targets[..last])[i] == batch[i];
        }
      }
    }
  }

  /** Served at a clock reading: the checkpoint rose and carries that reading, or an incident opened, or both. */
  ghost predicate IsServed(account: Account, account': Account, at: int) {
    && account'.rows == account.rows && BookOk(account'.book)
    && (AnchorNo(account'.book) > AnchorNo(account.book) || Quarantined(account'.book))
    && (if AnchorNo(account'.book) > AnchorNo(account.book) then VerifiedAt(account'.book) == Some(at)
        else VerifiedAt(account'.book) == VerifiedAt(account.book))
  }

  lemma {:induction false} RecordServes(account: Account, v: Verification, at: int)
    requires BookOk(account.book) && Fits(account.book, v)
    ensures IsServed(account, account.(book := Record(account.book, v, at)), at)
  {
    RecordAdvances(account.book, v, at);
    RecordMakesProgress(account.book, v, at, AnchorNo(account.book));
  }

  lemma {:induction false} BatchIndex(run: Run, accounts: map<Uuid, Account>, a: Uuid) returns (i: nat)
    requires RunOk(accounts, run) && a in run.targets
    ensures i < |run.batch| && run.targets[i] == a && IsFor(accounts, a, run.batch[i], run.startedAt)
  {
    i :| 0 <= i < |run.targets| && run.targets[i] == a;
  }

  lemma {:induction false} BatchIsDistinct(run: Run, accounts: map<Uuid, Account>)
    requires RunOk(accounts, run)
    ensures forall i, j :: 0 <= i < j < |run.batch| ==> run.batch[i].accountId != run.batch[j].accountId
    ensures forall i :: 0 <= i < |run.batch| ==> run.batch[i].accountId == run.targets[i]
  {
    forall i | 0 <= i < |run.batch| ensures run.batch[i].accountId == run.targets[i] {
      assert IsFor(accounts, run.targets[i], run.batch[i], run.startedAt);
    }
  }

  /** A committed run leaves every account alone that it did not target. */
  lemma {:induction false} UntargetedUnchanged(settings: Settings, s: Db, times: seq<int>, s': Db, a: Uuid)
    requires DbOk(s) && DbNext(settings, s, CommitRun(times), s')
    requires a in s.accounts && a !in s.pending.value.targets
    ensures s'.accounts[a] == s.accounts[a]
  {
    var run := s.pending.value;
    BatchIsDistinct(run, s.accounts);
    RecordAllPerAccount(Books(s), run.batch, times, a);
  }

  /** And it serves every account that it did target, at some clock reading of its own. */
  lemma {:induction false} TargetedServed(settings: Settings, s: Db, times: seq<int>, s': Db, a: Uuid) returns (at: int)
    requires DbOk(s) && DbNext(settings, s, CommitRun(times), s')
    requires a in s.accounts && a in s.pending.value.targets
    ensures s.pending.value.startedAt <= at <= s.clock && IsServed(s.accounts[a], s'.accounts[a], at)
  {
    var run := s.pending.value;
    var i := BatchIndex(run, s.accounts, a);
    at := times[i];
    BatchIsDistinct(run, s.accounts);
    RecordAllPerAccount(Books(s), run.batch, times, a);
    assert AccountOk(s.accounts[a], s.clock);
    RecordServes(s.accounts[a], run.batch[i], at);
  }

  /** A run changes only its targets, and each of them moves behind the run's start in time or is quarantined. */
  lemma {:induction false} RunPerAccount(settings: Settings, s: Db, times: seq<int>, s': Db, a: Uuid)
    requires DbOk(s) && DbNext(settings, s, CommitRun(times), s') && a in s.accounts
    ensures a !in s.pending.value.targets ==> s'.accounts[a] == s.accounts[a]
    ensures a in s.pending.value.targets ==>
              && s'.accounts[a].rows == s.accounts[a].rows && AccountOk(s'.accounts[a], s'.clock)
              && (|| Quarantined(s'.accounts[a].book)
                  || (&& AnchorNo(s'.accounts[a].book) > AnchorNo(s.accounts[a].book)
                      && VerifiedAt(s'.accounts[a].book).Some?
                      && VerifiedAt(s'.accounts[a].book).value >= s.pending.value.startedAt))
  {
    if a in s.pending.value.targets {
      var at := TargetedServed(settings, s, times, s', a);
      assert AccountOk(s.accounts[a], s.clock);
    } else {
      UntargetedUnchanged(settings, s, times, s', a);
    }
  }

  lemma {:induction false} ResolvedOk(account: Account, requested: Option<int>, resolver: Uuid, clock: int, clock': int)
    requires AccountOk(account, clock) && clock < clock'
    requires Resolve(account.rows, account.book, requested, resolver, clock).Ok?
    ensures
      var book := Resolve(account.rows, account.book, requested, resolver, clock).value;
      AccountOk(account.(book := book), clock') && Quarantined(account.book) && VerifiedAt(book) == Some(clock)
  {
    ResolveAdvances(account.rows, account.book, requested, resolver, clock);
  }

  lemma {:induction false} StepKeepsAccountOk(settings: Settings, s: Db, step: DbStep, s': Db, a: Uuid)
    requires DbOk(s) && DbNext(settings, s, step, s') && a in s'.accounts
    ensures a in s.accounts && AccountOk(s'.accounts[a], s'.clock)
  {
    assert AccountOk(s.accounts[a], s.clock);
    match step
    case ReadBatch(_) =>
    case CommitRun(times) => RunPerAccount(settings, s, times, s', a);
    case AbortRun =>
    case LedgerGrows(_, _) =>
    case ResolveBreak(account, requested, resolver) =>
      if account == a && Resolve(s.accounts[a].rows, s.accounts[a].book, requested, resolver, s.clock).Ok? {
        ResolvedOk(s.accounts[a], requested, resolver, s.clock, s'.clock);
      }
    case TimePasses =>
  }

  /** While a run is under way, nobody touches its targets: they are not quarantined, so there is nothing to resolve. */
  lemma {:induction false} BookKept(settings: Settings, s: Db, step: DbStep, s': Db, a: Uuid)
    requires DbOk(s) && DbNext(settings, s, step, s') && !step.CommitRun?
    requires a in s.accounts && !Quarantined(s.accounts[a].book)
    ensures a in s'.accounts && s'.accounts[a].book == s.accounts[a].book
  {
  }

  lemma {:induction false} StepKeepsRunOk(settings: Settings, s: Db, step: DbStep, s': Db)
    requires settings.rowsPerAccount >= 1 && DbOk(s) && DbNext(settings, s, step, s') && s'.pending.Some?
    ensures s'.pending.value.startedAt <= s'.clock && RunOk(s'.accounts, s'.pending.value)
  {
    var run := s'.pending.value;
    if step.ReadBatch? {
      BatchOfTargets(s, settings, step.targets);
    } else {
      forall i | 0 <= i < |run.targets| ensures IsFor(s'.accounts, run.targets[i], run.batch[i], run.startedAt) {
        assert IsFor(s.accounts, run.targets[i], run.batch[i], run.startedAt);
        BookKept(settings, s, step, s', run.targets[i]);
      }
    }
  }

  lemma {:induction false} StepKeepsDbOk(settings: Settings, s: Db, step: DbStep, s': Db)
    requires settings.rowsPerAccount >= 1 && DbOk(s) && DbNext(settings, s, step, s')
    ensures DbOk(s')
  {
    forall a | a in s'.accounts ensures AccountOk(s'.accounts[a], s'.clock) {
      StepKeepsAccountOk(settings, s, step, s', a);
    }
    if s'.pending.Some? {
      StepKeepsRunOk(settings, s, step, s');
    }
  }

  // ------------------------------------------------------------------ the scheduled job as written

  /**
   The job: without the advisory lock it does nothing; with it, it reads a batch and records it, which is one
   read step followed by one commit step, and counts what it wrote.
   */
  method VerifyCustomerAccountLedger(repo: Repository, locked: bool, batch: seq<Verification>, times: seq<int>,
                                     ghost db: Db, ghost settings: Settings, ghost targets: seq<Uuid>, ghost now: int)
    returns (checkpoints: nat, discrepancies: nat)
    requires settings.rowsPerAccount >= 1 && DbOk(db) && db.pending.None? && repo.books == Books(db)
    requires IsSelection(db, settings, targets) && batch == Batch(db, settings, targets)
    requires |times| == |targets| && db.clock < now && forall i :: 0 <= i < |times| ==> db.clock <= times[i] <= now
    modifies repo
    ensures !locked ==> repo.books == old(repo.books) && checkpoints == 0 && discrepancies == 0
    ensures locked ==>
              var read := Db(db.accounts, now, Some(Run(targets, batch, db.clock)));
              && DbNext(settings, db, ReadBatch(targets), read)
              && DbNext(settings, read, CommitRun(times), Db(WithBooks(db.accounts, repo.books), now + 1, None))
    ensures locked ==> discrepancies == Count(batch, (v: Verification) => v.firstBreak.Some?)
    ensures locked ==> checkpoints == Count(batch, (v: Verification) => v.ShouldCheckpoint())
  {
    checkpoints, discrepancies := 0, 0;
    if !locked {
      return;
    }
    BatchOfTargets(db, settings, targets);
    checkpoints, discrepancies := RecordBatch(repo, batch, times);
  }

  // ------------------------------------------------------------------ bounded wait

  /** The accounts that may be served before x: not quarantined, and not verified later than x. */
  ghost function Ahead(db: Db, x: Uuid): set<Uuid>
    requires x in db.accounts
  {
    set a | a in db.accounts && a != x && !Quarantined(db.accounts[a].book)
            && NotLater(VerifiedAtOf(db, a), VerifiedAtOf(db, x))
  }

  lemma {:induction false} StillEligible(rows: seq<Row>, rows': seq<Row>, book: Book, now: int, now': int,
                                         settings: Settings)
    requires Eligible(rows, book, now, settings) && Grows(rows, rows') && now <= now'
    ensures Eligible(rows', book, now', settings)
  {
    var newer :| 0 <= newer < |rows| && rows[newer].no > AnchorNo(book);
    var newer' :| 0 <= newer' < |rows'| && rows'[newer'].no == rows[newer].no;
    if i :| 0 <= i < |rows| && rows[i].no - AnchorNo(book) >= settings.rowsPerAccount {
      var j :| 0 <= j < |rows'| && rows'[j].no == rows[i].no;
    }
  }

  ghost predicate Serves(s: Db, step: DbStep, x: Uuid) {
    step.CommitRun? && s.pending.Some? && x in s.pending.value.targets
  }

  /** The run under way has x among its targets, or a full complement of accounts that are ahead of x. */
  ghost predicate IsFullFor(s: Db, settings: Settings, x: Uuid)
    requires x in s.accounts && s.pending.Some?
  {
    var run := s.pending.value;
    || x in run.targets
    || (&& |run.targets| == settings.accountsPerRun
        && Earlier(VerifiedAtOf(s, x), run.startedAt)
        && forall i :: 0 <= i < |run.targets| ==> run.targets[i] in Ahead(s, x))
  }

  /** Until it is served, an eligible account stays eligible and keeps its place in time. */
  lemma {:induction false} WaiterUndisturbed(settings: Settings, s: Db, step: DbStep, s': Db, x: Uuid)
    requires DbOk(s) && DbNext(settings, s, step, s')
    requires EligibleIn(s, settings, x) && !Serves(s, step, x)
    ensures EligibleIn(s', settings, x) && s'.accounts[x].book == s.accounts[x].book
  {
    var account := s.accounts[x];
    assert AccountOk(account, s.clock);
    if step.CommitRun? {
      UntargetedUnchanged(settings, s, step.times, s', x);
    } else {
      BookKept(settings, s, step, s', x);
    }
    assert Grows(account.rows, s'.accounts[x].rows);
    StillEligible(account.rows, s'.accounts[x].rows, account.book, s.clock, s'.clock, settings);
  }

  /** Nobody overtakes the waiting account: whoever was quarantined or behind it does not get ahead of it. */
  lemma {:induction false} NobodyOvertakes(settings: Settings, s: Db, step: DbStep, s': Db, x: Uuid, a: Uuid)
    requires DbOk(s) && DbNext(settings, s, step, s')
    requires EligibleIn(s, settings, x) && x in s'.accounts && s'.accounts[x].book == s.accounts[x].book
    requires a in Ahead(s', x)
    ensures a in Ahead(s, x)
  {
    assert AccountOk(s.accounts[a], s.clock) && AccountOk(s.accounts[x], s.clock);
    match step
    case CommitRun(times) =>
      if a in s.pending.value.targets {
        var at := TargetedServed(settings, s, times, s', a);
        var i := BatchIndex(s.pending.value, s.accounts, a);
      } else {
        UntargetedUnchanged(settings, s, times, s', a);
      }
    case ResolveBreak(account, requested, resolver) =>
      if account == a && Resolve(s.accounts[a].rows, s.accounts[a].book, requested, resolver, s.clock).Ok? {
        ResolvedOk(s.accounts[a], requested, resolver, s.clock, s'.clock);
      }
    case _ =>
  }

  /** The run that a waiting account sees under way stays full for it until it ends. */
  lemma {:induction false} RunStaysFull(settings: Settings, s: Db, step: DbStep, s': Db, x: Uuid)
    requires DbOk(s) && DbNext(settings, s, step, s') && !step.CommitRun? && s'.pending.Some?
    requires EligibleIn(s, settings, x) && x in s'.accounts && s'.accounts[x].book == s.accounts[x].book
    requires s.pending.Some? ==> IsFullFor(s, settings, x)
    ensures IsFullFor(s', settings, x)
  {
    var run := s'.pending.value;
    if step.ReadBatch? {
      assert AccountOk(s.accounts[x], s.clock);
      forall i | 0 <= i < |run.targets| && x !in run.targets ensures run.targets[i] in Ahead(s', x) {
        assert EligibleIn(s, settings, run.targets[i]);
      }
    } else {
      forall i | 0 <= i < |run.targets| && x !in run.targets ensures run.targets[i] in Ahead(s', x) {
        assert run.targets[i] in Ahead(s, x);
        BookKept(settings, s, step, s', run.targets[i]);
      }
    }
  }

  /** When it commits, all its targets fall behind the waiting account or into quarantine. */
  lemma {:induction false} CommitClearsTargets(settings: Settings, s: Db, times: seq<int>, s': Db, x: Uuid, i: nat)
    requires DbOk(s) && DbNext(settings, s, CommitRun(times), s') && x in s.accounts && x in s'.accounts
    requires IsFullFor(s, settings, x) && x !in s.pending.value.targets && s'.accounts[x].book == s.accounts[x].book
    requires i < |s.pending.value.targets|
    ensures s.pending.value.targets[i] in Ahead(s, x) - Ahead(s', x)
  {
    var a := s.pending.value.targets[i];
    assert a in Ahead(s, x);
    var at := TargetedServed(settings, s, times, s', a);
  }

  /** The places in time that x is short of being served, with the places that committed runs have offered. */
  ghost predicate IsWaiting(settings: Settings, s: Db, x: Uuid, places: int, bound: int) {
    && DbOk(s) && EligibleIn(s, settings, x)
    && |Ahead(s, x)| + places <= bound
    && (s.pending.Some? && !IsFullFor(s, settings, x) ==> |Ahead(s, x)| + places + settings.accountsPerRun <= bound)
  }

  /**
   Until it is served, an eligible account stays eligible, nobody overtakes it, and each committed run, except
   one that was under way already, serves a full complement of accounts ahead of it.
   */
  lemma {:induction false} WaitingStep(settings: Settings, s: Db, step: DbStep, s': Db, x: Uuid, places: int,
                                       bound: int)
    requires settings.rowsPerAccount >= 1 && DbNext(settings, s, step, s')
    requires IsWaiting(settings, s, x, places, bound) && !Serves(s, step, x)
    ensures x in s.accounts && x in s'.accounts && VerifiedAtOf(s', x) == VerifiedAtOf(s, x)
        && Ahead(s', x) <= Ahead(s, x)
    ensures IsWaiting(settings, s', x, places + if step.CommitRun? then settings.accountsPerRun else 0, bound)
  {
    StepKeepsDbOk(settings, s, step, s');
    WaiterUndisturbed(settings, s, step, s', x);
    forall a | a in Ahead(s', x) ensures a in Ahead(s, x) {
      NobodyOvertakes(settings, s, step, s', x, a);
    }
    DistinctCount([], Ahead(s, x), Ahead(s', x));
    if step.CommitRun? {
      if IsFullFor(s, settings, x) {
        var targets := s.pending.value.targets;
        forall i | 0 <= i < |targets| ensures targets[i] in Ahead(s, x) - Ahead(s', x) {
          CommitClearsTargets(settings, s, step.times, s', x, i);
        }
        DistinctCount(targets, Ahead(s, x), Ahead(s', x));
      }
    } else if s'.pending.Some? && (s.pending.Some? ==> IsFullFor(s, settings, x)) {
      RunStaysFull(settings, s, step, s', x);
    }
  }

  lemma {:induction false} DistinctCount(targets: seq<Uuid>, bigger: set<Uuid>, smaller: set<Uuid>)
    requires smaller <= bigger
    requires forall i, j :: 0 <= i < j < |targets| ==> targets[i] != targets[j]
    requires forall i :: 0 <= i < |targets| ==> targets[i] in bigger - smaller
    ensures |smaller| + |targets| <= |bigger|
  {
    if targets == [] {
      assert bigger == smaller + (bigger - smaller);
    } else {
      var t := targets[|targets| - 1];
      DistinctCount(targets[..|targets| - 1], bigger - {t}, smaller);
    }
  }

  function Runs(steps: seq<DbStep>): nat {
    if steps == [] then 0 else Runs(steps[..|steps| - 1]) + if steps[|steps| - 1].CommitRun? then 1 else 0
  }

  /** The places that many runs offer. */
  function Places(steps: seq<DbStep>, perRun: nat): nat {
    if steps == [] then 0
    else Places(steps[..|steps| - 1], perRun) + if steps[|steps| - 1].CommitRun? then perRun else 0
  }

  lemma {:induction false} PlacesAreRuns(steps: seq<DbStep>, perRun: nat)
    ensures Places(steps, perRun) == perRun * Runs(steps)
  {
    if steps != [] {
      var init := steps[..|steps| - 1];
      PlacesAreRuns(init, perRun);
      assert perRun * (Runs(init) + 1) == perRun * Runs(init) + perRun;
    }
  }

  lemma {:induction false} RunsExceed(k: nat, perRun: nat, runs: nat)
    requires perRun >= 1 && runs >= k / perRun + 1
    ensures perRun * runs > k
  {
    var q := k / perRun + 1;
    assert perRun * q > k;
    assert perRun * runs == perRun * q + perRun * (runs - q);
  }

  lemma {:induction false} PlacesExceed(k: nat, perRun: nat, steps: seq<DbStep>, late: bool)
    requires perRun >= 1 && Runs(steps) >= k / perRun + 1 + if late then 1 else 0
    ensures Places(steps, perRun) > k + if late then perRun else 0
  {
    PlacesAreRuns(steps, perRun);
    if late {
      RunsExceed(k, perRun, Runs(steps) - 1);
      assert perRun * (Runs(steps) - 1) == perRun * Runs(steps) - perRun;
    } else {
      RunsExceed(k, perRun, Runs(steps));
    }
  }

  ghost predicate IsDbRun(settings: Settings, states: seq<Db>, steps: seq<DbStep>) {
    && |states| == |steps| + 1 && settings.rowsPerAccount >= 1 && DbOk(states[0])
    && forall i {:trigger steps[i]} :: 0 <= i < |steps| ==> DbNext(settings, states[i], steps[i], states[i + 1])
  }

  /** What a run that is under way at the start may take up without serving anyone ahead of x. */
  function Slack(s: Db, settings: Settings): nat {
    if s.pending.Some? then settings.accountsPerRun else 0
  }

  lemma {:induction false} WaitStarts(settings: Settings, s: Db, x: Uuid)
    requires DbOk(s) && EligibleIn(s, settings, x)
    ensures IsWaiting(settings, s, x, 0, |Ahead(s, x)| + Slack(s, settings))
  {
  }

  lemma {:induction false} PlacesGrow(steps: seq<DbStep>, n: nat, perRun: nat)
    requires 0 < n <= |steps|
    ensures Places(steps[..n], perRun) == Places(steps[..n - 1], perRun) + if steps[n - 1].CommitRun? then perRun else 0
  {
    assert steps[..n][..n - 1] == steps[..n - 1];
  }

  lemma {:induction false} WaitShrinks(settings: Settings, states: seq<Db>, steps: seq<DbStep>, x: Uuid, n: nat,
                                       bound: int)
    requires IsDbRun(settings, states, steps) && n <= |steps| && EligibleIn(states[0], settings, x)
    requires bound == |Ahead(states[0], x)| + Slack(states[0], settings)
    requires forall i {:trigger steps[i]} :: 0 <= i < n ==> !Serves(states[i], steps[i], x)
    ensures IsWaiting(settings, states[n], x, Places(steps[..n], settings.accountsPerRun), bound)
  {
    if n == 0 {
      assert steps[..0] == [];
      WaitStarts(settings, states[0], x);
    } else {
      WaitShrinks(settings, states, steps, x, n - 1, bound);
      var places := Places(steps[..n - 1], settings.accountsPerRun);
      assert !Serves(states[n - 1], steps[n - 1], x) && DbNext(settings, states[n - 1], steps[n - 1], states[n]);
      WaitingStep(settings, states[n - 1], steps[n - 1], states[n], x, places, bound);
      PlacesGrow(steps, n, settings.accountsPerRun);
    }
  }

  /**
   Bounded wait: with k accounts ahead of it, an eligible account is served within
   ceil((k + 1) / accounts_per_run) committed runs, not counting one that is under way already, whatever else
   is appended, resolved or becomes eligible before, during and after those runs.
   */
  lemma {:induction false} BoundedWait(settings: Settings, states: seq<Db>, steps: seq<DbStep>, x: Uuid)
    requires IsDbRun(settings, states, steps) && EligibleIn(states[0], settings, x) && settings.accountsPerRun >= 1
    requires Runs(steps) >= |Ahead(states[0], x)| / settings.accountsPerRun + 1
        + if states[0].pending.Some? then 1 else 0
    ensures exists i :: 0 <= i < |steps| && Serves(states[i], steps[i], x)
  {
    if forall i {:trigger steps[i]} :: 0 <= i < |steps| ==> !Serves(states[i], steps[i], x) {
      var k, slack := |Ahead(states[0], x)|, Slack(states[0], settings);
      WaitShrinks(settings, states, steps, x, |steps|, k + slack);
      assert steps[..|steps|] == steps;
      PlacesExceed(k, settings.accountsPerRun, steps, states[0].pending.Some?);
      assert false;
    }
  }

  // ------------------------------------------------------------------ who is served

  /**
   An account is due if no incident of it is open, it has a row beyond its last checkpoint, and it was never
   verified, or its last checkpoint is older than the maximum age, or a full window of rows is unverified.
   */
  ghost predicate Due(account: Account, clock: int, settings: Settings) {
    var rows, checkpoints := account.rows, account.book.checkpoints;
    var through := ThroughNo(account.book);
    && (forall i :: 0 <= i < |account.book.incidents| ==> account.book.incidents[i].resolvedAt.Some?)
    && (exists i :: 0 <= i < |rows| && rows[i].no > through)
    && (|| checkpoints == []
        || checkpoints[|checkpoints| - 1].verifiedAt + settings.maxCheckpointAge < clock
        || exists i :: 0 <= i < |rows| && rows[i].no >= through + settings.rowsPerAccount)
  }

  lemma {:induction false} EligibleIffDue(account: Account, clock: int, settings: Settings)
    requires BookOk(account.book)
    ensures Eligible(account.rows, account.book, clock, settings) <==> Due(account, clock, settings)
  {
    LatestIsLast(account.book.checkpoints);
    var rows, through := account.rows, ThroughNo(account.book);
    assert through == AnchorNo(account.book);
    if i :| 0 <= i < |rows| && rows[i].no >= through + settings.rowsPerAccount {
      assert rows[i].no - AnchorNo(account.book) >= settings.rowsPerAccount;
    }
    if i :| 0 <= i < |rows| && rows[i].no - AnchorNo(account.book) >= settings.rowsPerAccount {
      assert rows[i].no >= through + settings.rowsPerAccount;
    }
    if Quarantined(account.book) {
      assert account.book.incidents[OpenIncident(account.book.incidents, 0).value].resolvedAt.None?;
    }
  }

  /**
   Whoever is due is served within ceil((k + 1) / accounts_per_run) committed runs (one more if a run is under
   way), k being the accounts ahead: its checkpoint rises or a break of it is recorded.
   */
  lemma {:induction false} DueIsServed(settings: Settings, states: seq<Db>, steps: seq<DbStep>, x: Uuid)
    requires IsDbRun(settings, states, steps) && settings.accountsPerRun >= 1
    requires x in states[0].accounts && Due(states[0].accounts[x], states[0].clock, settings)
    requires Runs(steps) >= |Ahead(states[0], x)| / settings.accountsPerRun + 1
                            + if states[0].pending.Some? then 1 else 0
    ensures exists i ::
              && 0 <= i < |steps| && steps[i].CommitRun?
              && x in states[i].accounts && x in states[i + 1].accounts
              && (|| ThroughNo(states[i + 1].accounts[x].book) > ThroughNo(states[i].accounts[x].book)
                  || Quarantined(states[i + 1].accounts[x].book))
  {
    assert AccountOk(states[0].accounts[x], states[0].clock);
    EligibleIffDue(states[0].accounts[x], states[0].clock, settings);
    BoundedWait(settings, states, steps, x);
    var i :| 0 <= i < |steps| && Serves(states[i], steps[i], x);
    RunKeepsDbOk(settings, states, steps, i);
    ServeRaises(settings, states[i], steps[i].times, states[i + 1], x);
  }

  lemma {:induction false} RunKeepsDbOk(settings: Settings, states: seq<Db>, steps: seq<DbStep>, n: nat)
    requires IsDbRun(settings, states, steps) && n <= |steps|
    ensures DbOk(states[n])
  {
    if n > 0 {
      RunKeepsDbOk(settings, states, steps, n - 1);
      assert DbNext(settings, states[n - 1], steps[n - 1], states[n]);
      StepKeepsDbOk(settings, states[n - 1], steps[n - 1], states[n]);
    }
  }

  lemma {:induction false} ServeRaises(settings: Settings, s: Db, times: seq<int>, s': Db, x: Uuid)
    requires DbOk(s) && DbNext(settings, s, CommitRun(times), s') && x in s.pending.value.targets
    ensures x in s.accounts && x in s'.accounts
    ensures || ThroughNo(s'.accounts[x].book) > ThroughNo(s.accounts[x].book)
            || Quarantined(s'.accounts[x].book)
  {
    var i := BatchIndex(s.pending.value, s.accounts, x);
    var at := TargetedServed(settings, s, times, s', x);
    assert AccountOk(s.accounts[x], s.clock);
    LatestIsLast(s.accounts[x].book.checkpoints);
    LatestIsLast(s'.accounts[x].book.checkpoints);
  }

  ghost predicate NoneEarlier(db: Db, m: Uuid, others: set<Uuid>) {
    && m in db.accounts
    && forall a :: a in others ==> a in db.accounts && NotLater(VerifiedAtOf(db, m), VerifiedAtOf(db, a))
  }

  lemma {:induction false} Earliest(db: Db, left: set<Uuid>, any: Uuid) returns (m: Uuid)
    requires any in left && left <= db.accounts.Keys
    ensures m in left && NoneEarlier(db, m, left)
    decreases left
  {
    m := any;
    var others := left - {any};
    if other :| other in others {
      var e := Earliest(db, others, other);
      if !NotLater(VerifiedAtOf(db, any), VerifiedAtOf(db, e)) {
        m := e;
      }
    }
    forall a | a in left ensures a in db.accounts && NotLater(VerifiedAtOf(db, m), VerifiedAtOf(db, a)) {
      if a != any {
        assert a in others;
      }
    }
  }

  /** The first n of these accounts, earliest first. */
  ghost predicate IsFirst(db: Db, left: set<Uuid>, n: nat, targets: seq<Uuid>)
    requires left <= db.accounts.Keys
  {
    && |targets| <= n
    && (forall i :: 0 <= i < |targets| ==> targets[i] in left)
    && (forall i, j :: 0 <= i < j < |targets| ==>
          targets[i] != targets[j] && NotLater(VerifiedAtOf(db, targets[i]), VerifiedAtOf(db, targets[j])))
    && (forall a :: a in left && a !in targets ==>
          && |targets| == n
          && forall i :: 0 <= i < |targets| ==> NotLater(VerifiedAtOf(db, targets[i]), VerifiedAtOf(db, a)))
  }

  lemma {:induction false} PrependEarliest(db: Db, left: set<Uuid>, n: nat, m: Uuid, rest: seq<Uuid>)
    requires left <= db.accounts.Keys && m in left && n > 0 && NoneEarlier(db, m, left)
    requires IsFirst(db, left - {m}, n - 1, rest)
    ensures IsFirst(db, left, n, [m] + rest)
  {
    var targets := [m] + rest;
    forall a | a in left && a !in targets
      ensures |targets| == n
      ensures forall i :: 0 <= i < |targets| ==> NotLater(VerifiedAtOf(db, targets[i]), VerifiedAtOf(db, a))
    {
      assert targets[0] == m && forall i :: 0 <= i < |rest| ==> targets[i + 1] == rest[i];
      assert a in left - {m} && a !in rest;
    }
  }

  lemma {:induction false} FirstExist(db: Db, left: set<Uuid>, n: nat) returns (targets: seq<Uuid>)
    requires left <= db.accounts.Keys
    ensures IsFirst(db, left, n, targets)
    decreases n
  {
    targets := [];
    if n > 0 {
      if any :| any in left {
        var m := Earliest(db, left, any);
        var rest := FirstExist(db, left - {m}, n - 1);
        PrependEarliest(db, left, n, m, rest);
        targets := [m] + rest;
      }
    }
  }

  /** The query always has an answer: the accounts that are due, earliest first, as many as a run takes. */
  lemma {:induction false} SelectionExists(db: Db, settings: Settings) returns (targets: seq<Uuid>)
    ensures IsSelection(db, settings, targets)
  {
    var due := set a | a in db.accounts && EligibleIn(db, settings, a);
    targets := FirstExist(db, due, settings.accountsPerRun);
  }

  /** Only accounts that are due are targeted, by any answer the query may give. */
  lemma {:induction false} OnlyDueAreTargeted(db: Db, settings: Settings, targets: seq<Uuid>, a: Uuid)
    requires DbOk(db) && IsSelection(db, settings, targets) && a in targets
    ensures a in db.accounts && Due(db.accounts[a], db.clock, settings)
  {
    var i :| 0 <= i < |targets| && targets[i] == a;
    assert EligibleIn(db, settings, targets[i]) && AccountOk(db.accounts[a], db.clock);
    EligibleIffDue(db.accounts[a], db.clock, settings);
  }

  /** In particular none with a fresh checkpoint and less than a window of unverified rows, and none in quarantine. */
  lemma {:induction false} FreshOrQuarantinedIsNotTargeted(db: Db, settings: Settings, targets: seq<Uuid>, a: Uuid)
    requires DbOk(db) && IsSelection(db, settings, targets) && a in db.accounts
    requires
      var account := db.accounts[a];
      var checkpoints := account.book.checkpoints;
      || (exists i :: 0 <= i < |account.book.incidents| && account.book.incidents[i].resolvedAt.None?)
      || (&& checkpoints != []
          && checkpoints[|checkpoints| - 1].verifiedAt + settings.maxCheckpointAge >= db.clock
          && forall i :: 0 <= i < |account.rows| ==>
               account.rows[i].no < checkpoints[|checkpoints| - 1].throughNo + settings.rowsPerAccount)
    ensures a !in targets
  {
    if a in targets {
      OnlyDueAreTargeted(db, settings, targets, a);
      assert false;
    }
  }

  /** Appending rows is growing, and so is altering what the rows hold, as long as their numbers stay. */
  lemma {:induction false} AppendsAndAlterationsGrow(rows: seq<Row>, rows': seq<Row>)
    requires InKeyOrder(rows') && |rows| <= |rows'| && forall i :: 0 <= i < |rows| ==> rows'[i].no == rows[i].no
    ensures Grows(rows, rows')
  {
    forall i | 0 <= i < |rows| ensures HasRow(rows', rows[i].no) {
      assert rows'[i].no == rows[i].no;
    }
  }

  /** Ledgers and resolves are not held up by the verifier: either may happen in any state, a run under way or not. */
  lemma {:induction false} VerifierHoldsNobodyUp(settings: Settings, s: Db, account: Uuid, rows: seq<Row>,
                                                 requested: Option<int>, resolver: Uuid)
    requires account in s.accounts && Grows(s.accounts[account].rows, rows)
    ensures
      var grown := s.accounts[account := s.accounts[account].(rows := rows)];
      DbNext(settings, s, LedgerGrows(account, rows), s.(accounts := grown, clock := s.clock + 1))
    ensures
      var answer := Resolve(s.accounts[account].rows, s.accounts[account].book, requested, resolver, s.clock);
      answer.Ok? ==>
        var resolved := s.accounts[account := s.accounts[account].(book := answer.value)];
        DbNext(settings, s, ResolveBreak(account, requested, resolver),
               s.(accounts := resolved, clock := s.clock + 1))
  {
  }

  // ------------------------------------------------------------------ how often a clean ledger is served

  function Min(a: int, b: int): int {
    if a <= b then a else b
  }

  /** Serving a clean ledger moves its checkpoint by one window, and stops at its last row. */
  lemma {:induction false} CleanServe(accountId: Uuid, rows: seq<Row>, book: Book, now: int, settings: Settings)
    requires settings.rowsPerAccount >= 1 && ValidChain(rows) && BookOk(book) && Eligible(rows, book, now, settings)
    requires Truthful(rows, AnchorNo(book), AnchoredBalance(book))
    ensures Examine(accountId, rows, book, settings).Some?
    ensures
      var v := Examine(accountId, rows, book, settings).value;
      && v.firstBreak.None? && Truthful(rows, v.LastGoodNo(), v.LastGoodBalance())
      && var reach := AnchorNo(book) + settings.rowsPerAccount + if AnchorNo(book) == 0 then 1 else 0;
      v.LastGoodNo() == Min(|rows|, reach)
  {
    ValidChainIsInKeyOrder(rows);
    LatestIsLast(book.checkpoints);
    EligibleFits(accountId, rows, book, now, settings);
    var v := Examine(accountId, rows, book, settings).value;
    CheckpointCarriesForward(rows, settings.rowsPerAccount + 1, v);
    CleanScanIffValidChain(rows);
    var k, end := WindowIsSlice(rows, AnchorNo(book), settings.rowsPerAccount + 1);
    assert v.batchLastNo == rows[end - 1].no;
    assert forall i :: 0 <= i < |rows| ==> rows[i].no == i + 1;
    CutIsUnique(rows, AnchorNo(book), k, if AnchorNo(book) == 0 then 0 else AnchorNo(book) - 1);
  }

  /** An account served early, before its checkpoint went stale, always fills a whole window. */
  lemma {:induction false} EarlyServiceFillsWindow(accountId: Uuid, rows: seq<Row>, book: Book, now: int,
                                                   settings: Settings)
    requires settings.rowsPerAccount >= 1 && ValidChain(rows) && BookOk(book) && Eligible(rows, book, now, settings)
    requires Truthful(rows, AnchorNo(book), AnchoredBalance(book))
    requires VerifiedAt(book).Some? && VerifiedAt(book).value >= now - settings.maxCheckpointAge
    ensures Examine(accountId, rows, book, settings).Some?
    ensures Examine(accountId, rows, book, settings).value.LastGoodNo() == AnchorNo(book) + settings.rowsPerAccount
  {
    CleanServe(accountId, rows, book, now, settings);
    LatestIsLast(book.checkpoints);
    var i :| 0 <= i < |rows| && rows[i].no - AnchorNo(book) >= settings.rowsPerAccount;
    assert rows[i].no == i + 1;
  }

  ghost predicate IsServe(accountId: Uuid, rows: seq<Row>, book: Book, now: int, settings: Settings, served: Book) {
    && Eligible(rows, book, now, settings)
    && Examine(accountId, rows, book, settings).Some?
    && served == Record(book, Examine(accountId, rows, book, settings).value, now)
  }

  /** A book served s times over a fixed ledger. */
  ghost predicate ServedTimes(accountId: Uuid, rows: seq<Row>, books: seq<Book>, times: seq<int>, settings: Settings) {
    && |books| == |times| + 1
    && forall i {:trigger times[i]} :: 0 <= i < |times| ==>
        IsServe(accountId, rows, books[i], times[i], settings, books[i + 1])
  }

  /** A fixed clean ledger with N unverified rows is served at most ceil(N / rows_per_account) times. */
  lemma {:induction false} ServedAtMost(accountId: Uuid, rows: seq<Row>, books: seq<Book>, times: seq<int>,
                                        settings: Settings)
    requires settings.rowsPerAccount >= 1 && ValidChain(rows) && ServedTimes(accountId, rows, books, times, settings)
    requires BookOk(books[0]) && Truthful(rows, AnchorNo(books[0]), AnchoredBalance(books[0]))
    ensures |times| > 0 ==> (|times| - 1) * settings.rowsPerAccount < |rows| - AnchorNo(books[0])
  {
    if |times| > 0 {
      var n := |times| - 1;
      ServedAdvances(accountId, rows, books, times, settings, n, n * settings.rowsPerAccount);
      assert IsServe(accountId, rows, books[n], times[n], settings, books[n + 1]);
      var i :| 0 <= i < |rows| && rows[i].no > AnchorNo(books[n]);
      assert rows[i].no == i + 1;
    }
  }

  lemma {:induction false} ServeAdvances(accountId: Uuid, rows: seq<Row>, book: Book, now: int, settings: Settings,
                                         served: Book)
    requires settings.rowsPerAccount >= 1 && ValidChain(rows) && BookOk(book)
    requires Truthful(rows, AnchorNo(book), AnchoredBalance(book))
        && IsServe(accountId, rows, book, now, settings, served)
    ensures BookOk(served) && Truthful(rows, AnchorNo(served), AnchoredBalance(served))
    ensures AnchorNo(served) >= Min(|rows|, AnchorNo(book) + settings.rowsPerAccount)
  {
    CleanServe(accountId, rows, book, now, settings);
    var v := Examine(accountId, rows, book, settings).value;
    ValidChainIsInKeyOrder(rows);
    EligibleFits(accountId, rows, book, now, settings);
    RecordAdvances(book, v, now);
    AddCheckpointAhead(book, v.LastGoodNo(), v.LastGoodBalance(), now);
  }

  lemma {:induction false} ServedAdvances(accountId: Uuid, rows: seq<Row>, books: seq<Book>, times: seq<int>,
                                          settings: Settings, n: nat, gain: int)
    requires settings.rowsPerAccount >= 1 && ValidChain(rows) && ServedTimes(accountId, rows, books, times, settings)
    requires BookOk(books[0]) && Truthful(rows, AnchorNo(books[0]), AnchoredBalance(books[0]))
    requires n < |books| && gain == n * settings.rowsPerAccount
    ensures BookOk(books[n]) && Truthful(rows, AnchorNo(books[n]), AnchoredBalance(books[n]))
    ensures AnchorNo(books[n]) >= Min(|rows|, AnchorNo(books[0]) + gain)
  {
    if n > 0 {
      OneWindowLess(n, settings.rowsPerAccount);
      ServedAdvances(accountId, rows, books, times, settings, n - 1, gain - settings.rowsPerAccount);
      assert IsServe(accountId, rows, books[n - 1], times[n - 1], settings, books[n]);
      ServeAdvances(accountId, rows, books[n - 1], times[n - 1], settings, books[n]);
    }
  }

  lemma {:induction false} OneWindowLess(n: nat, window: nat)
    requires n > 0
    ensures (n - 1) * window == n * window - window
  {
  }
}
