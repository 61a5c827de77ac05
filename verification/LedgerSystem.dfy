/**
 Creators, payments, edits and the verifier running against the same account: rows become visible in
 number order, so nothing appears behind a checkpoint and the verifier never raises a false alarm.
 */
module LedgerSystem {
  import opened Wrappers
  import opened Ledger
  import opened LedgerWindow
  import opened LedgerAudit
  import opened LedgerVerification
  import AuditRuns
  import Interleaving

  datatype System = System(machine: Interleaving.Machine, audit: AuditRuns.Audit)

  datatype SystemStep = Writer(statement: Interleaving.Step) | Verifier(action: AuditRuns.AuditStep)

  ghost predicate SystemNext(id: Uuid, settings: Settings, s: System, step: SystemStep, s': System) {
    match step
    case Writer(w) =>
      && Interleaving.Apply(id, s.machine, w) == Some(s'.machine)
      && s'.audit == s.audit.(rows := s'.machine.store.rows)
    case Verifier(v) =>
      && !v.LedgerChanges? && s'.machine == s.machine
      && AuditRuns.Next(id, settings, s.audit, v, s'.audit)
  }

  /** Writers and verifier never wait for each other: whatever either can do alone, it can do in the system. */
  lemma {:induction false} NeitherBlocksTheOther(id: Uuid, settings: Settings, s: System)
    ensures forall w, m :: Interleaving.Apply(id, s.machine, w) == Some(m) ==>
              SystemNext(id, settings, s, Writer(w), System(m, s.audit.(rows := m.store.rows)))
    ensures forall v: AuditRuns.AuditStep, audit ::
              !v.LedgerChanges? && AuditRuns.Next(id, settings, s.audit, v, audit) ==>
                SystemNext(id, settings, s, Verifier(v), System(s.machine, audit))
  {
  }

  const INITIAL := System(Interleaving.INITIAL, AuditRuns.Audit([], EMPTY_BOOK, None))

  ghost predicate IsSystemRun(id: Uuid, settings: Settings, systems: seq<System>, steps: seq<SystemStep>) {
    && |systems| == |steps| + 1 && settings.rowsPerAccount >= 1
    && systems[0] == INITIAL
    && forall i {:trigger steps[i]} :: 0 <= i < |steps| ==>
        SystemNext(id, settings, systems[i], steps[i], systems[i + 1])
  }

  ghost predicate SystemOk(id: Uuid, s: System) {
    && Interleaving.Inv(id, s.machine)
    && s.audit.rows == s.machine.store.rows
    && CleanAudit(s.audit)
  }

  /** Every checkpoint is truthful, and no break was ever found. */
  ghost predicate CleanAudit(audit: AuditRuns.Audit) {
    && AuditRuns.AuditOk(audit) && AuditRuns.AllTruthful(audit)
    && audit.book.incidents == []
    && (audit.pending.Some? ==> audit.pending.value.firstBreak.None?)
  }

  lemma {:induction false} StepAppends(id: Uuid, settings: Settings, s: System, step: SystemStep, s': System)
    requires SystemOk(id, s) && SystemNext(id, settings, s, step, s')
    ensures s.machine.store.rows <= s'.machine.store.rows
  {
    if step.Writer? {
      Interleaving.StepIsRequest(id, s.machine, step.statement);
    }
  }

  lemma {:induction false} WriterKeepsSystemOk(id: Uuid, settings: Settings, s: System, w: Interleaving.Step,
                                               s': System)
    requires settings.rowsPerAccount >= 1 && SystemOk(id, s) && SystemNext(id, settings, s, Writer(w), s')
    ensures SystemOk(id, s')
  {
    Interleaving.StepKeepsInv(id, s.machine, w, s'.machine);
    StepAppends(id, settings, s, Writer(w), s');
    var rows, rows' := s.audit.rows, s'.audit.rows;
    ValidChainIsInKeyOrder(rows');
    var step := AuditRuns.LedgerChanges(rows');
    AuditRuns.StepKeepsAuditOk(id, settings, s.audit, step, s'.audit);
    AuditRuns.AnchorIsTruthful(s.audit);
    var balance := if s.audit.pending.Some? then s.audit.pending.value.LastGoodBalance()
                   else AnchoredBalance(s.audit.book);
    AuditRuns.AppendKeepsCovered(rows, rows', AuditRuns.Covered(s.audit), balance);
    AuditRuns.UndisturbedStepKeepsTruth(id, settings, s.audit, step, s'.audit);
  }

  lemma {:induction false} VerifierKeepsSystemOk(id: Uuid, settings: Settings, s: System, v: AuditRuns.AuditStep,
                                                 s': System)
    requires settings.rowsPerAccount >= 1 && SystemOk(id, s) && SystemNext(id, settings, s, Verifier(v), s')
    ensures SystemOk(id, s')
  {
    VerifierStaysClean(id, settings, s.audit, v, s'.audit);
  }

  /** On a valid chain the verifier finds nothing, and there is nothing to resolve. */
  lemma {:induction false} VerifierStaysClean(id: Uuid, settings: Settings, s: AuditRuns.Audit, v: AuditRuns.AuditStep,
                                              s': AuditRuns.Audit)
    requires settings.rowsPerAccount >= 1 && CleanAudit(s) && ValidChain(s.rows)
    requires !v.LedgerChanges? && AuditRuns.Next(id, settings, s, v, s')
    ensures CleanAudit(s') && s'.rows == s.rows
  {
    AuditRuns.StepKeepsAuditOk(id, settings, s, v, s');
    match v
    case ReadBatch(at) =>
      AuditRuns.UndisturbedStepKeepsTruth(id, settings, s, v, s');
      EligibleFits(id, s.rows, s.book, at, settings);
      AuditRuns.AnchorIsTruthful(s);
      CheckpointCarriesForward(s.rows, settings.rowsPerAccount + 1, s'.pending.value);
      CleanScanIffValidChain(s.rows);
    case CommitRun(at) =>
      AuditRuns.UndisturbedStepKeepsTruth(id, settings, s, v, s');
      RecordAdvances(s.book, s.pending.value, at);
    case AbortRun =>
    case ResolveBreak(_, _, _) =>
  }

  lemma {:induction false} StepKeepsSystemOk(id: Uuid, settings: Settings, s: System, step: SystemStep, s': System)
    requires settings.rowsPerAccount >= 1 && SystemOk(id, s) && SystemNext(id, settings, s, step, s')
    ensures SystemOk(id, s')
  {
    match step
    case Writer(w) => WriterKeepsSystemOk(id, settings, s, w, s');
    case Verifier(v) => VerifierKeepsSystemOk(id, settings, s, v, s');
  }

  lemma {:induction false} InitialSystemOk(id: Uuid)
    ensures SystemOk(id, INITIAL)
  {
  }

  lemma {:induction false} SystemKeepsOk(id: Uuid, settings: Settings, systems: seq<System>, steps: seq<SystemStep>,
                                         i: nat)
    requires IsSystemRun(id, settings, systems, steps) && i < |systems|
    ensures SystemOk(id, systems[i])
  {
    if i == 0 {
      InitialSystemOk(id);
    } else {
      SystemKeepsOk(id, settings, systems, steps, i - 1);
      assert SystemNext(id, settings, systems[i - 1], steps[i - 1], systems[i]);
      StepKeepsSystemOk(id, settings, systems[i - 1], steps[i - 1], systems[i]);
    }
  }

  /** On a valid chain a truthful checkpoint names a row that is there, with that row's balance. */
  lemma {:induction false} TruthfulNamesARow(rows: seq<Row>, no: int, balance: int)
    requires ValidChain(rows) && Truthful(rows, no, balance)
    ensures 0 <= no <= |rows| && balance == BalanceBefore(rows, no)
  {
    ValidChainIsInKeyOrder(rows);
    var k := UpToIsPrefix(rows, no);
    PrefixOfValidChain(rows, k);
  }

  /** No false alarms: nothing is ever recorded or about to be, and each checkpoint is a committed row's balance. */
  lemma {:induction false} NoFalseAlarms(id: Uuid, settings: Settings, systems: seq<System>, steps: seq<SystemStep>,
                                         i: nat)
    requires IsSystemRun(id, settings, systems, steps) && i < |systems|
    ensures
      var rows, book := systems[i].machine.store.rows, systems[i].audit.book;
      && book.incidents == []
      && (systems[i].audit.pending.Some? ==> systems[i].audit.pending.value.firstBreak.None?)
      && forall k :: 0 <= k < |book.checkpoints| ==>
           && 1 <= book.checkpoints[k].throughNo <= |rows|
           && book.checkpoints[k].balance == rows[book.checkpoints[k].throughNo - 1].balance
  {
    SystemKeepsOk(id, settings, systems, steps, i);
    var rows, checkpoints := systems[i].machine.store.rows, systems[i].audit.book.checkpoints;
    forall k | 0 <= k < |checkpoints|
      ensures 1 <= checkpoints[k].throughNo <= |rows|
          && checkpoints[k].balance == rows[checkpoints[k].throughNo - 1].balance
    {
      TruthfulNamesARow(rows, checkpoints[k].throughNo, checkpoints[k].balance);
    }
  }

  /**
   Nothing appears behind a checkpoint: rows visible later, and the row that is pending now, all have
   numbers above every checkpoint that is stored or about to be stored.
   */
  lemma {:induction false} NothingBehindACheckpoint(id: Uuid, settings: Settings, systems: seq<System>,
                                                    steps: seq<SystemStep>, i: nat, j: nat)
    requires IsSystemRun(id, settings, systems, steps) && i <= j < |systems|
    ensures
      var rows, later := systems[i].machine.store.rows, systems[j].machine.store.rows;
      && rows <= later
      && (forall k :: |rows| <= k < |later| ==>
            && (forall c :: c in systems[i].audit.book.checkpoints ==> later[k].no > c.throughNo)
            && (systems[i].audit.pending.Some? ==> later[k].no > systems[i].audit.pending.value.LastGoodNo()))
    ensures forall t :: t in systems[i].machine.txs && systems[i].machine.txs[t].PayFlushed? ==>
              var entry, audit := systems[i].machine.txs[t].entry, systems[i].audit;
              && (forall c :: c in audit.book.checkpoints ==> entry.no > c.throughNo)
              && (audit.pending.Some? ==> entry.no > audit.pending.value.LastGoodNo())
  {
    RowsOnlyGrow(id, settings, systems, steps, i, j);
    SystemKeepsOk(id, settings, systems, steps, i);
    SystemKeepsOk(id, settings, systems, steps, j);
    var s, later := systems[i], systems[j].machine.store.rows;
    forall c | c in s.audit.book.checkpoints ensures c.throughNo <= |s.audit.rows| {
      TruthfulNamesARow(s.audit.rows, c.throughNo, c.balance);
    }
    if s.audit.pending.Some? {
      TruthfulNamesARow(s.audit.rows, s.audit.pending.value.LastGoodNo(), s.audit.pending.value.LastGoodBalance());
    }
    assert forall k :: 0 <= k < |later| ==> later[k].no == k + 1;
    forall t | t in s.machine.txs && s.machine.txs[t].PayFlushed?
      ensures s.machine.txs[t].entry.no == |s.audit.rows| + 1
    {
      assert Interleaving.TxOk(id, s.machine.store, s.machine.txs[t]);
      assert s.audit.rows[|s.audit.rows| - 1].no == |s.audit.rows|;
    }
  }

  lemma {:induction false} NextAppends(id: Uuid, settings: Settings, systems: seq<System>, steps: seq<SystemStep>,
                                       i: nat)
    requires IsSystemRun(id, settings, systems, steps) && i < |steps|
    ensures systems[i].machine.store.rows <= systems[i + 1].machine.store.rows
  {
    SystemKeepsOk(id, settings, systems, steps, i);
    assert SystemNext(id, settings, systems[i], steps[i], systems[i + 1]);
    StepAppends(id, settings, systems[i], steps[i], systems[i + 1]);
  }

  lemma {:induction false} RowsOnlyGrow(id: Uuid, settings: Settings, systems: seq<System>, steps: seq<SystemStep>,
                                        i: nat, j: nat)
    requires IsSystemRun(id, settings, systems, steps) && i <= j < |systems|
    ensures systems[i].machine.store.rows <= systems[j].machine.store.rows
  {
    if i < j {
      RowsOnlyGrow(id, settings, systems, steps, i, j - 1);
      NextAppends(id, settings, systems, steps, j - 1);
    }
  }
}
