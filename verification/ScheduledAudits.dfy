/**
 What the scheduler does across accounts, seen from one account: each of its steps is a step of that account's
 own audit, or none at all. So what holds of every run of one audit holds of every account under the scheduler.
 */
module ScheduledAudits {
  import opened Wrappers
  import opened Ledger
  import opened LedgerWindow
  import opened LedgerVerification
  import opened Scheduler
  import AuditRuns

  /** The account's own verification in a batch, if the batch has one. */
  function Find(batch: seq<Verification>, a: Uuid): Option<Verification> {
    if batch == [] then None
    else if batch[0].accountId == a then Some(batch[0])
    else Find(batch[1..], a)
  }

  lemma {:induction false} FindIs(batch: seq<Verification>, i: nat)
    requires forall j, k :: 0 <= j < k < |batch| ==> batch[j].accountId != batch[k].accountId
    requires i < |batch|
    ensures Find(batch, batch[i].accountId) == Some(batch[i])
  {
    if i > 0 {
      assert batch[0].accountId != batch[i].accountId;
      FindIs(batch[1..], i - 1);
    }
  }

  lemma {:induction false} FindNone(batch: seq<Verification>, a: Uuid)
    requires forall i :: 0 <= i < |batch| ==> batch[i].accountId != a
    ensures Find(batch, a) == None
  {
    if batch != [] {
      FindNone(batch[1..], a);
    }
  }

  /** One account under the scheduler: its ledger, its book, and its own verification while a run is under way. */
  function View(db: Db, a: Uuid): AuditRuns.Audit
    requires a in db.accounts
  {
    AuditRuns.Audit(db.accounts[a].rows, db.accounts[a].book,
                    match db.pending case None => None case Some(run) => Find(run.batch, a))
  }

  /** The audit step that a scheduler step is for one account, or None where the account is not concerned. */
  ghost predicate Steps(settings: Settings, s: Db, step: DbStep, s': Db, a: Uuid, own: Option<AuditRuns.AuditStep>)
    requires a in s.accounts && a in s'.accounts
  {
    match own
    case None => View(s', a) == View(s, a)
    case Some(t) =>
      && AuditRuns.Next(a, settings, View(s, a), t, View(s', a))
      && (t.LedgerChanges? ==> step == LedgerGrows(a, t.rows))
      && (t.ResolveBreak? ==> step == ResolveBreak(a, t.requested, t.resolver))
  }

  lemma {:induction false} ReadIsOwnRead(settings: Settings, s: Db, targets: seq<Uuid>, s': Db, a: Uuid)
    returns (own: Option<AuditRuns.AuditStep>)
    requires settings.rowsPerAccount >= 1 && DbOk(s) && DbNext(settings, s, ReadBatch(targets), s') && a in s.accounts
    ensures a in s'.accounts && Steps(settings, s, ReadBatch(targets), s', a, own)
  {
    BatchOfTargets(s, settings, targets);
    var run := s'.pending.value;
    BatchIsDistinct(run, s.accounts);
    if a in targets {
      var i :| 0 <= i < |targets| && targets[i] == a;
      assert EligibleIn(s, settings, targets[i]) && IsExamined(s, settings, a, run.batch[i]);
      FindIs(run.batch, i);
      own := Some(AuditRuns.ReadBatch(s.clock));
    } else {
      FindNone(run.batch, a);
      own := None;
    }
  }

  lemma {:induction false} CommitIsOwnCommit(settings: Settings, s: Db, times: seq<int>, s': Db, a: Uuid)
    returns (own: Option<AuditRuns.AuditStep>)
    requires DbOk(s) && DbNext(settings, s, CommitRun(times), s') && a in s.accounts
    ensures a in s'.accounts && Steps(settings, s, CommitRun(times), s', a, own)
  {
    var run := s.pending.value;
    BatchIsDistinct(run, s.accounts);
    RecordAllPerAccount(Books(s), run.batch, times, a);
    if a in run.targets {
      var i := BatchIndex(run, s.accounts, a);
      FindIs(run.batch, i);
      own := Some(AuditRuns.CommitRun(times[i]));
    } else {
      FindNone(run.batch, a);
      own := None;
    }
  }

  /** Every scheduler step is, for every account, a step of its own audit or none. */
  lemma {:induction false} EveryStepIsOwnStep(settings: Settings, s: Db, step: DbStep, s': Db, a: Uuid)
    returns (own: Option<AuditRuns.AuditStep>)
    requires settings.rowsPerAccount >= 1 && DbOk(s) && DbNext(settings, s, step, s') && a in s.accounts
    ensures a in s'.accounts && Steps(settings, s, step, s', a, own)
  {
    match step
    case ReadBatch(targets) => own := ReadIsOwnRead(settings, s, targets, s', a);
    case CommitRun(times) => own := CommitIsOwnCommit(settings, s, times, s', a);
    case AbortRun => own := Some(AuditRuns.AbortRun);
    case LedgerGrows(account, rows) =>
      own := if account == a then Some(AuditRuns.LedgerChanges(rows)) else None;
    case ResolveBreak(account, requested, resolver) =>
      own := if account == a then Some(AuditRuns.ResolveBreak(requested, resolver, s.clock)) else None;
    case TimePasses => own := None;
  }

  // ------------------------------------------------------------------ whole runs

  /** Outside writes to this account only append, and nothing of it is force-resolved. */
  ghost predicate OnlyAppendsTo(a: Uuid, states: seq<Db>, steps: seq<DbStep>, n: nat)
    requires n <= |steps| && |states| == |steps| + 1
  {
    forall i {:trigger steps[i]} :: 0 <= i < n ==> AppendsTo(a, states[i], steps[i])
  }

  ghost predicate AppendsTo(a: Uuid, s: Db, step: DbStep) {
    && !(step.ResolveBreak? && step.account == a)
    && (step.LedgerGrows? && step.account == a ==> a in s.accounts && s.accounts[a].rows <= step.rows)
  }

  lemma {:induction false} ExtendRun(settings: Settings, a: Uuid, audits: seq<AuditRuns.Audit>,
                                     own: seq<AuditRuns.AuditStep>, t: AuditRuns.AuditStep, next: AuditRuns.Audit)
    requires AuditRuns.IsRun(a, settings, audits, own) && AuditRuns.Next(a, settings, audits[|own|], t, next)
    ensures AuditRuns.IsRun(a, settings, audits + [next], own + [t])
    ensures AuditRuns.OnlyAppends(audits, own) && AuditRuns.Appends(audits[|own|], t) ==>
              AuditRuns.OnlyAppends(audits + [next], own + [t])
  {
    var audits', own' := audits + [next], own + [t];
    forall i | 0 <= i < |own'| ensures AuditRuns.Next(a, settings, audits'[i], own'[i], audits'[i + 1]) {
      if i < |own| {
        assert own[i] == own'[i] && audits[i] == audits'[i] && audits[i + 1] == audits'[i + 1];
      }
    }
    if AuditRuns.OnlyAppends(audits, own) && AuditRuns.Appends(audits[|own|], t) {
      forall i | 0 <= i < |own'| ensures AuditRuns.Appends(audits'[i], own'[i]) {
        if i < |own| {
          assert own[i] == own'[i] && audits[i] == audits'[i];
        }
      }
    }
  }

  /** A run of the scheduler is, for every account, a run of its own audit that ends in the same place. */
  lemma {:induction false} EveryRunIsOwnRun(settings: Settings, states: seq<Db>, steps: seq<DbStep>, a: Uuid, n: nat)
    returns (audits: seq<AuditRuns.Audit>, own: seq<AuditRuns.AuditStep>)
    requires IsDbRun(settings, states, steps) && n <= |steps| && a in states[0].accounts
    requires states[0].accounts[a].book == EMPTY_BOOK && states[0].pending.None?
    ensures DbOk(states[n]) && a in states[n].accounts
    ensures AuditRuns.IsRun(a, settings, audits, own) && audits[|own|] == View(states[n], a)
    ensures OnlyAppendsTo(a, states, steps, n) ==> AuditRuns.OnlyAppends(audits, own)
  {
    RunKeepsDbOk(settings, states, steps, n);
    if n == 0 {
      assert AccountOk(states[0].accounts[a], states[0].clock);
      audits, own := [View(states[0], a)], [];
    } else {
      audits, own := EveryRunIsOwnRun(settings, states, steps, a, n - 1);
      var s, step, s' := states[n - 1], steps[n - 1], states[n];
      assert DbNext(settings, s, step, s');
      var t := EveryStepIsOwnStep(settings, s, step, s', a);
      if t.Some? {
        if OnlyAppendsTo(a, states, steps, n) {
          assert AppendsTo(a, s, step);
          assert AuditRuns.Appends(View(s, a), t.value);
        }
        ExtendRun(settings, a, audits, own, t.value, View(s', a));
        audits, own := audits + [View(s', a)], own + [t.value];
      }
    }
  }

  /** Under the scheduler too, at most one incident of any account is open, and it sits on the latest checkpoint. */
  lemma {:induction false} EveryAccountIsInOrder(settings: Settings, states: seq<Db>, steps: seq<DbStep>, a: Uuid,
                                                 n: nat)
    requires IsDbRun(settings, states, steps) && n <= |steps| && a in states[0].accounts
    requires states[0].accounts[a].book == EMPTY_BOOK && states[0].pending.None?
    ensures a in states[n].accounts && AuditRuns.AuditOk(View(states[n], a))
  {
    var audits, own := EveryRunIsOwnRun(settings, states, steps, a, n);
    AuditRuns.OpenIncidentInvariant(a, settings, audits, own, |own|);
  }

  /**
   The incremental check across accounts equals the full check of each one: as long as an account's ledger is
   only appended to and nothing of it is force-resolved, all its checkpoints say what a one-pass scan says, and
   all its incidents are that scan's first break.
   */
  lemma {:induction false} EveryAccountEqualsFullScan(settings: Settings, states: seq<Db>, steps: seq<DbStep>, a: Uuid,
                                                      n: nat)
    requires IsDbRun(settings, states, steps) && n <= |steps| && a in states[0].accounts
    requires states[0].accounts[a].book == EMPTY_BOOK && states[0].pending.None?
    requires OnlyAppendsTo(a, states, steps, n)
    ensures a in states[n].accounts
    ensures AuditRuns.AllTruthful(View(states[n], a)) && AuditRuns.BreaksAreFirst(View(states[n], a))
  {
    var audits, own := EveryRunIsOwnRun(settings, states, steps, a, n);
    AuditRuns.AppendOnlyRuns(a, settings, audits, own, |own|);
  }
}
