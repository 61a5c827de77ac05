/**
 Whole runs of the verifier over one account while the ledger changes underneath it. A run reads its
 batch in one statement and writes at its commit, so outside writes may fall in between; resolve is
 one step; the advisory lock allows one run at a time.
 */
module AuditRuns {
  import opened Wrappers
  import opened Ledger
  import opened LedgerWindow
  import opened LedgerAudit
  import opened LedgerVerification

  datatype Audit = Audit(rows: seq<Row>, book: Book, pending: Option<Verification>)

  datatype AuditStep =
    | LedgerChanges(rows: seq<Row>)
    | ReadBatch(at: int)
    | CommitRun(at: int)
    | AbortRun
    | ResolveBreak(requested: Option<int>, resolver: Uuid, at: int)

  ghost predicate Next(accountId: Uuid, settings: Settings, s: Audit, step: AuditStep, s': Audit) {
    match step
    case LedgerChanges(rows) => InKeyOrder(rows) && s' == s.(rows := rows)
    case ReadBatch(at) =>
      && s.pending.None? && Eligible(s.rows, s.book, at, settings)
      && s' == s.(pending := Examine(accountId, s.rows, s.book, settings))
    case CommitRun(at) => s.pending.Some? && s' == s.(book := Record(s.book, s.pending.value, at), pending := None)
    case AbortRun => s' == s.(pending := None)
    case ResolveBreak(requested, resolver, at) =>
      match Resolve(s.rows, s.book, requested, resolver, at)
      case Err(_) => s' == s
      case Ok(book) => s' == s.(book := book)
  }

  /** An account starts without checkpoints and incidents, over any ledger. */
  ghost predicate IsRun(accountId: Uuid, settings: Settings, states: seq<Audit>, steps: seq<AuditStep>) {
    && |states| == |steps| + 1 && settings.rowsPerAccount >= 1
    && InKeyOrder(states[0].rows) && states[0].book == EMPTY_BOOK && states[0].pending.None?
    && forall i {:trigger steps[i]} :: 0 <= i < |steps| ==>
        Next(accountId, settings, states[i], steps[i], states[i + 1])
  }

  // ------------------------------------------------------------------ incidents and checkpoints, whatever happens

  ghost predicate AuditOk(s: Audit) {
    && InKeyOrder(s.rows) && BookOk(s.book)
    && (s.pending.Some? ==> Fits(s.book, s.pending.value))
  }

  lemma {:induction false} StepKeepsAuditOk(accountId: Uuid, settings: Settings, s: Audit, step: AuditStep, s': Audit)
    requires settings.rowsPerAccount >= 1 && AuditOk(s) && Next(accountId, settings, s, step, s')
    ensures AuditOk(s')
  {
    match step
    case LedgerChanges(_) =>
    case ReadBatch(at) => EligibleFits(accountId, s.rows, s.book, at, settings);
    case CommitRun(at) => RecordAdvances(s.book, s.pending.value, at);
    case AbortRun =>
    case ResolveBreak(requested, resolver, at) =>
      if Resolve(s.rows, s.book, requested, resolver, at).Ok? {
        ResolveAdvances(s.rows, s.book, requested, resolver, at);
      }
  }

  /**
   In every state of every run, however the ledger is tampered with: checkpoints ascend, at most one
   incident is open, and an open one sits on the latest checkpoint.
   */
  lemma {:induction false} OpenIncidentInvariant(accountId: Uuid, settings: Settings, states: seq<Audit>,
                                                 steps: seq<AuditStep>, i: nat)
    requires IsRun(accountId, settings, states, steps) && i < |states|
    ensures AuditOk(states[i])
  {
    if i > 0 {
      OpenIncidentInvariant(accountId, settings, states, steps, i - 1);
      StepKeepsAuditOk(accountId, settings, states[i - 1], steps[i - 1], states[i]);
    }
  }

  /** Consequently a resolve without an explicit row never meets the "must be greater" error. */
  lemma {:induction false} DefaultResolveNeverBehind(accountId: Uuid, settings: Settings, states: seq<Audit>,
                                                     steps: seq<AuditStep>,
                                                     i: nat, resolver: Uuid, now: int)
    requires IsRun(accountId, settings, states, steps) && i < |states|
    ensures Resolve(states[i].rows, states[i].book, None, resolver, now) != Err(NotAhead)
  {
    OpenIncidentInvariant(accountId, settings, states, steps, i);
    var book := states[i].book;
    var open := OpenIncident(book.incidents, 0);
    if open.Some? {
      DefaultResolve(states[i].rows, book, open.value, resolver, now);
    }
  }

  // ------------------------------------------------------------------ what a committed run leaves behind

  /** The incident stored for a break says what the verification said, and is open. */
  ghost predicate Shows(incident: Incident, v: Verification, at: int)
    requires v.firstBreak.Some?
  {
    var b := v.firstBreak.value;
    && incident.no == b.no && incident.kind == b.kind && incident.prevNo == b.prevNo
    && incident.expected == v.ExpectedBalance() && incident.actual == b.balance
    && incident.detectedAt == at && incident.resolvedAt.None? && incident.resolvedBy.None?
  }

  /**
   In every run, a commit stores what was read: the last checkpoint is at the last good row (with its balance
   and this time, if it is a new one), and the account is quarantined exactly if a break was read, by an open
   incident that shows it. One or the other always happens.
   */
  lemma {:induction false} CommitRecords(accountId: Uuid, settings: Settings, states: seq<Audit>, steps: seq<AuditStep>,
                                         i: nat)
    requires IsRun(accountId, settings, states, steps) && i < |steps| && steps[i].CommitRun?
    ensures states[i].pending.Some? && states[i + 1].pending.None? && states[i + 1].rows == states[i].rows
    ensures
      var v, at, book, book' := states[i].pending.value, steps[i].at, states[i].book, states[i + 1].book;
      && v.LastGoodNo() >= ThroughNo(book)
      && ThroughNo(book') == v.LastGoodNo()
      && (v.LastGoodNo() > ThroughNo(book) ==>
            book'.checkpoints == book.checkpoints + [Checkpoint(v.LastGoodNo(), v.LastGoodBalance(), at)])
      && (v.LastGoodNo() == ThroughNo(book) ==> book'.checkpoints == book.checkpoints)
      && (v.LastGoodNo() > ThroughNo(book) || v.firstBreak.Some?)
      && (Quarantined(book') <==> v.firstBreak.Some?)
      && (v.firstBreak.Some? ==>
            exists k :: OpenIncident(book'.incidents, 0) == Some(k) && Shows(book'.incidents[k], v, at))
  {
    OpenIncidentInvariant(accountId, settings, states, steps, i);
    assert Next(accountId, settings, states[i], steps[i], states[i + 1]);
    RecordStores(states[i].book, states[i].pending.value, steps[i].at);
  }

  lemma {:induction false} RecordStores(book: Book, v: Verification, at: int)
    requires BookOk(book) && Fits(book, v)
    ensures
      var book' := Record(book, v, at);
      && v.LastGoodNo() >= ThroughNo(book) && ThroughNo(book') == v.LastGoodNo()
      && book'.checkpoints == book.checkpoints +
           (if v.LastGoodNo() > ThroughNo(book) then [Checkpoint(v.LastGoodNo(), v.LastGoodBalance(), at)] else [])
      && (v.LastGoodNo() > ThroughNo(book) || v.firstBreak.Some?)
      && (Quarantined(book') <==> v.firstBreak.Some?)
      && (v.firstBreak.Some? ==>
            exists k :: OpenIncident(book'.incidents, 0) == Some(k) && Shows(book'.incidents[k], v, at))
  {
    var book' := Record(book, v, at);
    RecordAdvances(book, v, at);
    RecordMakesProgress(book, v, at, AnchorNo(book));
    LatestIsLast(book.checkpoints);
    LatestIsLast(book'.checkpoints);
    if v.firstBreak.Some? {
      var k := |book.incidents|;
      assert book'.incidents[k] == IncidentOf(v, v.firstBreak.value, at);
      TheOpenIncident(book', k);
    }
  }

  // ------------------------------------------------------------------ incremental equals full

  /** The last row that a checkpoint, stored or about to be stored, vouches for. */
  function Covered(s: Audit): int {
    match s.pending case None => AnchorNo(s.book) case Some(v) => v.LastGoodNo()
  }

  /** Nothing is force-resolved, and no covered row is altered, inserted or removed. */
  ghost predicate Undisturbed(states: seq<Audit>, steps: seq<AuditStep>)
    requires |states| == |steps| + 1
  {
    forall i {:trigger steps[i]} :: 0 <= i < |steps| ==> LeavesCovered(states[i], steps[i])
  }

  ghost predicate LeavesCovered(s: Audit, step: AuditStep) {
    && !step.ResolveBreak?
    && (step.LedgerChanges? ==> UpTo(step.rows, Covered(s)) == UpTo(s.rows, Covered(s)))
  }

  ghost predicate AllTruthful(s: Audit) {
    && (forall i :: 0 <= i < |s.book.checkpoints| ==>
          Truthful(s.rows, s.book.checkpoints[i].throughNo, s.book.checkpoints[i].balance))
    && (s.pending.Some? ==> Truthful(s.rows, s.pending.value.LastGoodNo(), s.pending.value.LastGoodBalance()))
  }

  lemma {:induction false} UpToTwice(rows: seq<Row>, n: int, covered: int)
    requires n <= covered
    ensures UpTo(UpTo(rows, covered), n) == UpTo(rows, n)
  {
    if rows != [] {
      UpToTwice(rows[1..], n, covered);
      if rows[0].no <= covered {
        assert UpTo(rows, covered)[1..] == UpTo(rows[1..], covered);
      }
    }
  }

  lemma {:induction false} CoveredRowsKept(rows: seq<Row>, rows': seq<Row>, covered: int, n: int, balance: int)
    requires n <= covered && UpTo(rows', covered) == UpTo(rows, covered) && Truthful(rows, n, balance)
    ensures Truthful(rows', n, balance)
  {
    UpToTwice(rows, n, covered);
    UpToTwice(rows', n, covered);
  }

  lemma {:induction false} AnchorIsTruthful(s: Audit)
    requires AuditOk(s) && AllTruthful(s)
    ensures Truthful(s.rows, AnchorNo(s.book), AnchoredBalance(s.book))
  {
    LatestIsLast(s.book.checkpoints);
    if s.book.checkpoints == [] {
      UpToNone(s.rows, 0);
    }
  }

  lemma {:induction false} UndisturbedStepKeepsTruth(accountId: Uuid, settings: Settings, s: Audit, step: AuditStep,
                                                     s': Audit)
    requires settings.rowsPerAccount >= 1 && AuditOk(s) && AllTruthful(s)
    requires Next(accountId, settings, s, step, s') && LeavesCovered(s, step)
    ensures AllTruthful(s')
  {
    match step
    case LedgerChanges(rows) =>
      LatestIsLast(s.book.checkpoints);
      forall i | 0 <= i < |s.book.checkpoints|
        ensures Truthful(rows, s.book.checkpoints[i].throughNo, s.book.checkpoints[i].balance)
      {
        var c := s.book.checkpoints[i];
        assert c.throughNo <= AnchorNo(s.book) <= Covered(s);
        CoveredRowsKept(s.rows, rows, Covered(s), c.throughNo, c.balance);
      }
      if s.pending.Some? {
        CoveredRowsKept(s.rows, rows, Covered(s), s.pending.value.LastGoodNo(), s.pending.value.LastGoodBalance());
      }
    case ReadBatch(at) =>
      EligibleFits(accountId, s.rows, s.book, at, settings);
      AnchorIsTruthful(s);
      CheckpointCarriesForward(s.rows, settings.rowsPerAccount + 1, Examine(accountId, s.rows, s.book, settings).value);
    case CommitRun(at) =>
      RecordAdvances(s.book, s.pending.value, at);
    case AbortRun =>
  }

  /**
   With any window size and any interleaving of outside writes that leave covered rows alone: every
   checkpoint, at every moment, says what a one-pass scan from row 1 says through that row.
   */
  lemma {:induction false} CheckpointsEqualFullScan(accountId: Uuid, settings: Settings, states: seq<Audit>,
                                                    steps: seq<AuditStep>, i: nat)
    requires IsRun(accountId, settings, states, steps) && Undisturbed(states, steps) && i < |states|
    ensures AuditOk(states[i]) && AllTruthful(states[i])
  {
    OpenIncidentInvariant(accountId, settings, states, steps, i);
    if i > 0 {
      CheckpointsEqualFullScan(accountId, settings, states, steps, i - 1);
      UndisturbedStepKeepsTruth(accountId, settings, states[i - 1], steps[i - 1], states[i]);
    }
  }

  /** And a break that a run reads is exactly the full scan's first break of the ledger it reads. */
  lemma {:induction false} BreakReadEqualsFullScan(accountId: Uuid, settings: Settings, states: seq<Audit>,
                                                   steps: seq<AuditStep>, i: nat)
    requires IsRun(accountId, settings, states, steps) && Undisturbed(states, steps)
    requires i < |steps| && steps[i].ReadBatch?
    ensures states[i + 1].pending.Some?
    ensures var v := states[i + 1].pending.value;
            if v.firstBreak.Some? then Scan(0, 0, states[i].rows) == Verdict(v)
            else Scan(0, 0, UpTo(states[i].rows, v.LastGoodNo())) == Verdict(v)
  {
    CheckpointsEqualFullScan(accountId, settings, states, steps, i);
    var s := states[i];
    assert Next(accountId, settings, s, steps[i], states[i + 1]);
    EligibleFits(accountId, s.rows, s.book, steps[i].at, settings);
    AnchorIsTruthful(s);
    CheckpointCarriesForward(s.rows, settings.rowsPerAccount + 1, Examine(accountId, s.rows, s.book, settings).value);
  }

  // ------------------------------------------------------------------ a ledger that only grows

  /** Every outside write appends rows behind the existing ones, and nothing is force-resolved. */
  ghost predicate OnlyAppends(states: seq<Audit>, steps: seq<AuditStep>)
    requires |states| == |steps| + 1
  {
    forall i {:trigger steps[i]} :: 0 <= i < |steps| ==> Appends(states[i], steps[i])
  }

  ghost predicate Appends(s: Audit, step: AuditStep) {
    !step.ResolveBreak? && (step.LedgerChanges? ==> s.rows <= step.rows)
  }

  ghost predicate IsFirstBreak(rows: seq<Row>, incident: Incident) {
    var full := Scan(0, 0, rows);
    && full.Broken?
    && incident.no == full.no && incident.kind == full.kind && incident.prevNo == full.prevNo
    && incident.expected == full.expected && incident.actual == full.actual
  }

  ghost predicate BreaksAreFirst(s: Audit) {
    && (forall i :: 0 <= i < |s.book.incidents| ==> IsFirstBreak(s.rows, s.book.incidents[i]))
    && (s.pending.Some? && s.pending.value.firstBreak.Some? ==> Scan(0, 0, s.rows) == Verdict(s.pending.value))
  }

  lemma {:induction false} AppendKeepsCovered(rows: seq<Row>, rows': seq<Row>, n: int, balance: int)
    requires InKeyOrder(rows) && InKeyOrder(rows') && rows <= rows' && Truthful(rows, n, balance)
    ensures UpTo(rows', n) == UpTo(rows, n)
  {
    var more := rows'[|rows|..];
    assert rows' == rows + more;
    var k := UpToIsPrefix(rows, n);
    assert rows'[..k] == rows[..k];
    CleanPrefixIsTruthful(rows', k);
  }

  lemma {:induction false} AppendOnlyRuns(accountId: Uuid, settings: Settings, states: seq<Audit>,
                                          steps: seq<AuditStep>, i: nat)
    requires IsRun(accountId, settings, states, steps) && OnlyAppends(states, steps) && i < |states|
    ensures AuditOk(states[i]) && AllTruthful(states[i]) && BreaksAreFirst(states[i])
  {
    OpenIncidentInvariant(accountId, settings, states, steps, i);
    if i > 0 {
      AppendOnlyRuns(accountId, settings, states, steps, i - 1);
      AppendStep(accountId, settings, states[i - 1], steps[i - 1], states[i]);
    }
  }

  lemma {:induction false} AppendStep(accountId: Uuid, settings: Settings, s: Audit, step: AuditStep, s': Audit)
    requires settings.rowsPerAccount >= 1 && AuditOk(s) && AllTruthful(s) && BreaksAreFirst(s)
    requires Next(accountId, settings, s, step, s') && Appends(s, step)
    ensures AllTruthful(s') && BreaksAreFirst(s')
  {
    match step
    case LedgerChanges(rows) =>
      AnchorIsTruthful(s);
      var balance := if s.pending.Some? then s.pending.value.LastGoodBalance() else AnchoredBalance(s.book);
      AppendKeepsCovered(s.rows, rows, Covered(s), balance);
      UndisturbedStepKeepsTruth(accountId, settings, s, step, s');
      assert rows == s.rows + rows[|s.rows|..];
      AppendsPreserve(s.rows, rows[|s.rows|..]);
    case ReadBatch(at) =>
      UndisturbedStepKeepsTruth(accountId, settings, s, step, s');
      EligibleFits(accountId, s.rows, s.book, at, settings);
      AnchorIsTruthful(s);
      CheckpointCarriesForward(s.rows, settings.rowsPerAccount + 1, Examine(accountId, s.rows, s.book, settings).value);
    case CommitRun(at) =>
      UndisturbedStepKeepsTruth(accountId, settings, s, step, s');
      RecordAdvances(s.book, s.pending.value, at);
    case AbortRun =>
  }

  /**
   While rows are only appended, every incident ever recorded is the full scan's first break of the
   ledger, then and for good: same row, kind, predecessor, expected and actual balance.
   */
  lemma {:induction false} IncidentsEqualFullScan(accountId: Uuid, settings: Settings, states: seq<Audit>,
                                                  steps: seq<AuditStep>, i: nat, k: nat)
    requires IsRun(accountId, settings, states, steps) && OnlyAppends(states, steps)
    requires i < |states| && k < |states[i].book.incidents|
    ensures IsFirstBreak(states[i].rows, states[i].book.incidents[k])
  {
    AppendOnlyRuns(accountId, settings, states, steps, i);
  }
}
