/**
 Many transactions on one account, one database statement at a time. Statements read the latest
 committed state (READ COMMITTED); SELECT ... FOR UPDATE and UPDATE take the account's row lock and
 hold it to the end of the transaction. The log records each handler call when its fate is decided.
 */
module Interleaving {
  import opened Wrappers
  import opened Ledger
  import opened Accounts

  datatype Tx =
    | Creating(fields: Fields)                                   // account and genesis row inserted
    | PayLocked(payment: Payment)                                // row lock held, account seen ACTIVE
    | PayFresh(payment: Payment)                                 // operation id not found
    | PayReady(payment: Payment, entry: Row)                     // last row read, next row computed
    | PayFlushed(payment: Payment, entry: Row)                   // next row inserted
    | EditLoaded(edit: Edit, loaded: Versioned, fields: Fields)  // row read without a lock, fields assigned
    | EditFlushed(edit: Edit, loaded: Versioned, fields: Fields) // row updated, old state archived

  datatype Event = Event(request: Request, outcome: Outcome)

  datatype Machine = Machine(store: Store, lock: Option<nat>, txs: map<nat, Tx>, log: seq<Event>)

  const INITIAL := Machine(EMPTY_STORE, None, map[], [])

  datatype Step =
    | BeginCreate(tx: nat, fields: Fields)
    | CommitCreate(tx: nat)
    | LockById(tx: nat, payment: Payment)
    | CheckOperation(tx: nat)
    | FindLastEntry(tx: nat)
    | FlushEntry(tx: nat)
    | CommitEntry(tx: nat)
    | LoadAccount(tx: nat, edit: Edit)
    | FlushEdit(tx: nat)
    | CommitEdit(tx: nat)
    | Rollback(tx: nat)

  function End(m: Machine, tx: nat): Machine {
    m.(txs := m.txs - {tx}, lock := if m.lock == Some(tx) then None else m.lock)
  }

  function Log(m: Machine, request: Request, outcome: Outcome): Machine {
    m.(log := m.log + [Event(request, outcome)])
  }

  /** The table's two unique keys: (account_id, no) and (account_id, operation_id). */
  predicate ViolatesKey(rows: seq<Row>, entry: Row) {
    exists i :: 0 <= i < |rows| && (rows[i].no == entry.no || rows[i].operationId == entry.operationId)
  }

  /** One statement of one transaction, or None where it cannot run now (for instance, the row is locked). */
  function Apply(id: Uuid, m: Machine, step: Step): Option<Machine> {
    var t := step.tx;
    match step
    case BeginCreate(_, fields) =>
      // ids are fresh, so an account has one creator at a time
      if t in m.txs || m.store.account.Some? || (exists u :: u in m.txs && m.txs[u].Creating?) then None
      else Some(m.(txs := m.txs[t := Creating(fields)]))
    case CommitCreate(_) =>
      if !(t in m.txs && m.txs[t].Creating?) then None
      else
        var fields := m.txs[t].fields;
        var store := Store(Some(Versioned(fields.(status := Active), 1)), m.store.history, m.store.rows + [Create(id)]);
        Some(Log(End(m, t), CreateAccount(fields), Created).(store := store))
    case LockById(_, payment) =>
      if t in m.txs || m.lock.Some? then None
      else if m.store.account.None? then Some(Log(m, Pay(payment), UnknownAccount))
      else if m.store.account.value.fields.status != Active then Some(Log(m, Pay(payment), NotActive))
      else Some(m.(txs := m.txs[t := PayLocked(payment)], lock := Some(t)))
    case CheckOperation(_) =>
      if !(t in m.txs && m.txs[t].PayLocked?) then None
      else
        var payment := m.txs[t].payment;
        if HasOperation(m.store.rows, payment.id) then Some(Log(End(m, t), Pay(payment), Duplicate))
        else Some(m.(txs := m.txs[t := PayFresh(payment)]))
    case FindLastEntry(_) =>
      if !(t in m.txs && m.txs[t].PayFresh?) then None
      else
        var payment := m.txs[t].payment;
        if m.store.rows == [] then Some(Log(End(m, t), Pay(payment), NoLedger))
        else
          var previous := m.store.rows[|m.store.rows| - 1];
          if previous.balance + payment.signedAmount < 0 then Some(Log(End(m, t), Pay(payment), Insufficient))
          else
            var entry := Follow(previous, payment.signedAmount, payment.operationType, payment.id);
            Some(m.(txs := m.txs[t := PayReady(payment, entry)]))
    case FlushEntry(_) =>
      if !(t in m.txs && m.txs[t].PayReady?) then None
      else if ViolatesKey(m.store.rows, m.txs[t].entry) then Some(End(m, t))
      else Some(m.(txs := m.txs[t := PayFlushed(m.txs[t].payment, m.txs[t].entry)]))
    case CommitEntry(_) =>
      if !(t in m.txs && m.txs[t].PayFlushed?) then None
      else
        var store := m.store.(rows := m.store.rows + [m.txs[t].entry]);
        Some(Log(End(m, t), Pay(m.txs[t].payment), Accepted).(store := store))
    case LoadAccount(_, edit) =>
      if t in m.txs then None
      else
        var decision := Decide(id, m.store.account, edit);
        if !decision.Write? then Some(Log(m, EditAccount(edit), Rejected))
        else
          var loaded := m.store.account.value;
          if decision.fields == loaded.fields then Some(Log(m, EditAccount(edit), Unchanged))
          else Some(m.(txs := m.txs[t := EditLoaded(edit, loaded, decision.fields)]))
    case FlushEdit(_) =>
      if !(t in m.txs && m.txs[t].EditLoaded?) || m.lock.Some? then None
      else
        var tx := m.txs[t];
        if m.store.account.None? || m.store.account.value.version != tx.loaded.version
        then Some(Log(End(m, t), EditAccount(tx.edit), Rejected))
        else Some(m.(txs := m.txs[t := EditFlushed(tx.edit, tx.loaded, tx.fields)], lock := Some(t)))
    case CommitEdit(_) =>
      if !(t in m.txs && m.txs[t].EditFlushed?) then None
      else
        var tx := m.txs[t];
        var account := Some(Versioned(tx.fields, tx.loaded.version + 1));
        var store := m.store.(account := account, history := m.store.history + [tx.loaded]);
        Some(Log(End(m, t), EditAccount(tx.edit), Written).(store := store))
    case Rollback(_) =>
      if t !in m.txs then None else Some(End(m, t))
  }

  // ------------------------------------------------------------------ the invariant

  function Requests(log: seq<Event>): seq<Request> {
    seq(|log|, i requires 0 <= i < |log| => log[i].request)
  }

  /** Every logged outcome is the outcome of the sequential handler at that point of the log. */
  ghost predicate OutcomesAgree(id: Uuid, log: seq<Event>) {
    forall i :: 0 <= i < |log| ==> OutcomeAt(id, Requests(log), i) == log[i].outcome
  }

  predicate HoldsLock(tx: Tx) {
    !tx.Creating? && !tx.EditLoaded?
  }

  /** The loaded row is what the account was at that version, whether or not it still is. */
  ghost predicate IsSnapshot(store: Store, loaded: Versioned) {
    && store.account.Some? && 1 <= loaded.version <= store.account.value.version == |store.history| + 1
    && loaded == if loaded.version <= |store.history| then store.history[loaded.version - 1] else store.account.value
  }

  ghost predicate PayOk(store: Store, p: Payment) {
    store.account.Some? && store.account.value.fields.status == Active
  }

  ghost predicate EntryOk(store: Store, p: Payment, entry: Row) {
    && PayOk(store, p) && !HasOperation(store.rows, p.id) && store.rows != []
    && entry == Follow(store.rows[|store.rows| - 1], p.signedAmount, p.operationType, p.id)
    && entry.balance >= 0
  }

  ghost predicate EditOk(id: Uuid, store: Store, edit: Edit, loaded: Versioned, fields: Fields) {
    IsSnapshot(store, loaded) && Decide(id, Some(loaded), edit) == Write(fields) && fields != loaded.fields
  }

  /** What a transaction has read is still true, except for an edit's unlocked read. */
  ghost predicate TxOk(id: Uuid, store: Store, tx: Tx) {
    match tx
    case Creating(_) => store.account.None?
    case PayLocked(p) => PayOk(store, p)
    case PayFresh(p) => PayOk(store, p) && !HasOperation(store.rows, p.id)
    case PayReady(p, entry) => EntryOk(store, p, entry)
    case PayFlushed(p, entry) => EntryOk(store, p, entry)
    case EditLoaded(edit, loaded, fields) => EditOk(id, store, edit, loaded, fields)
    case EditFlushed(edit, loaded, fields) => EditOk(id, store, edit, loaded, fields) && store.account == Some(loaded)
  }

  ghost predicate LocksOk(m: Machine) {
    && (m.lock.Some? ==> m.lock.value in m.txs && HoldsLock(m.txs[m.lock.value]))
    && (forall t :: t in m.txs && HoldsLock(m.txs[t]) ==> m.lock == Some(t))
    && (forall t, u :: t in m.txs && u in m.txs && m.txs[t].Creating? && m.txs[u].Creating? ==> t == u)
  }

  ghost predicate TxsOk(id: Uuid, m: Machine) {
    forall t :: t in m.txs ==> TxOk(id, m.store, m.txs[t])
  }

  /** The sequential handlers, run over the log, produce this store and the logged outcomes. */
  ghost predicate Serial(id: Uuid, log: seq<Event>, store: Store) {
    After(id, Requests(log)) == store && OutcomesAgree(id, log)
  }

  ghost predicate Inv(id: Uuid, m: Machine) {
    Serial(id, m.log, m.store) && StoreOk(id, m.store) && LocksOk(m) && TxsOk(id, m)
  }

  // ------------------------------------------------------------------ it is kept by every step

  lemma {:induction false} LogExtends(id: Uuid, log: seq<Event>, store: Store, event: Event, store': Store)
    requires Serial(id, log, store) && Handle(id, store, event.request) == (store', event.outcome)
    ensures Serial(id, log + [event], store')
  {
    var log' := log + [event];
    var before, requests := Requests(log), Requests(log');
    assert requests == before + [event.request] && requests[..|before|] == before;
    forall i | 0 <= i < |log'| ensures OutcomeAt(id, requests, i) == log'[i].outcome {
      if i < |before| {
        assert requests[..i] == before[..i] && OutcomeAt(id, before, i) == log[i].outcome;
      }
    }
  }

  /** What one step does to the store: nothing, or exactly one logged request run by its sequential handler. */
  ghost predicate IsRequest(id: Uuid, m: Machine, m': Machine) {
    if m'.log == m.log then m'.store == m.store
    else
      && |m'.log| == |m.log| + 1
      && m'.log[..|m.log|] == m.log
      && Handle(id, m.store, m'.log[|m.log|].request) == (m'.store, m'.log[|m.log|].outcome)
  }

  lemma {:induction false} StepIsRequest(id: Uuid, m: Machine, step: Step)
    requires StoreOk(id, m.store) && TxsOk(id, m) && Apply(id, m, step).Some?
    ensures IsRequest(id, m, Apply(id, m, step).value)
  {
    var m' := Apply(id, m, step).value;
    if m'.log != m.log {
      assert m'.log[..|m.log|] == m.log;
    }
  }

  lemma {:induction false} StepKeepsLocks(id: Uuid, m: Machine, step: Step)
    requires LocksOk(m) && Apply(id, m, step).Some?
    ensures LocksOk(Apply(id, m, step).value)
  {
  }

  /** A transaction that did not move keeps what it knows: the store changes only under the row lock. */
  lemma {:induction false} OthersUndisturbed(id: Uuid, m: Machine, step: Step, t: nat)
    requires StoreOk(id, m.store) && LocksOk(m) && TxsOk(id, m) && Apply(id, m, step).Some?
    requires t in m.txs && t != step.tx
    ensures TxOk(id, Apply(id, m, step).value.store, m.txs[t])
  {
    assert TxOk(id, m.store, m.txs[t]);
    if step.CommitCreate? || step.CommitEntry? || step.CommitEdit? {
      assert TxOk(id, m.store, m.txs[step.tx]);
    }
  }

  lemma {:induction false} MoverOk(id: Uuid, m: Machine, step: Step)
    requires StoreOk(id, m.store) && TxsOk(id, m) && Apply(id, m, step).Some?
    ensures step.tx in Apply(id, m, step).value.txs ==>
              TxOk(id, Apply(id, m, step).value.store, Apply(id, m, step).value.txs[step.tx])
  {
    if step.tx in m.txs {
      assert TxOk(id, m.store, m.txs[step.tx]);
    }
  }

  lemma {:induction false} OnlyMoverMoves(id: Uuid, m: Machine, step: Step, t: nat)
    requires Apply(id, m, step).Some? && t != step.tx && t in Apply(id, m, step).value.txs
    ensures t in m.txs && Apply(id, m, step).value.txs[t] == m.txs[t]
  {
  }

  lemma {:induction false} StepKeepsTxs(id: Uuid, m: Machine, step: Step, m': Machine)
    requires StoreOk(id, m.store) && LocksOk(m) && TxsOk(id, m) && Apply(id, m, step) == Some(m')
    ensures TxsOk(id, m')
  {
    forall t | t in m'.txs ensures TxOk(id, m'.store, m'.txs[t]) {
      if t == step.tx {
        MoverOk(id, m, step);
      } else {
        OnlyMoverMoves(id, m, step, t);
        OthersUndisturbed(id, m, step, t);
      }
    }
  }

  lemma {:induction false} RequestKeepsSerial(id: Uuid, m: Machine, m': Machine)
    requires Serial(id, m.log, m.store) && IsRequest(id, m, m')
    ensures Serial(id, m'.log, m'.store)
  {
    if m'.log != m.log {
      var event := m'.log[|m.log|];
      assert m'.log == m.log + [event];
      LogExtends(id, m.log, m.store, event, m'.store);
    }
  }

  lemma {:induction false} RequestKeepsStoreOk(id: Uuid, m: Machine, m': Machine)
    requires StoreOk(id, m.store) && IsRequest(id, m, m')
    ensures StoreOk(id, m'.store)
  {
    if m'.log != m.log {
      HandleKeepsStoreOk(id, m.store, m'.log[|m.log|].request);
    }
  }

  lemma {:induction false} StepKeepsInv(id: Uuid, m: Machine, step: Step, m': Machine)
    requires Inv(id, m) && Apply(id, m, step) == Some(m')
    ensures Inv(id, m')
  {
    StepIsRequest(id, m, step);
    RequestKeepsSerial(id, m, m');
    RequestKeepsStoreOk(id, m, m');
    StepKeepsLocks(id, m, step);
    StepKeepsTxs(id, m, step, m');
  }

  // ------------------------------------------------------------------ whole runs

  ghost predicate IsExecution(id: Uuid, machines: seq<Machine>, steps: seq<Step>) {
    && |machines| == |steps| + 1 && machines[0] == INITIAL
    && forall i {:trigger steps[i]} :: 0 <= i < |steps| ==> Apply(id, machines[i], steps[i]) == Some(machines[i + 1])
  }

  lemma {:induction false} ExecutionKeepsInv(id: Uuid, machines: seq<Machine>, steps: seq<Step>, i: nat)
    requires IsExecution(id, machines, steps) && i < |machines|
    ensures Inv(id, machines[i])
  {
    if i > 0 {
      ExecutionKeepsInv(id, machines, steps, i - 1);
      assert Apply(id, machines[i - 1], steps[i - 1]) == Some(machines[i]);
      StepKeepsInv(id, machines[i - 1], steps[i - 1], machines[i]);
    }
  }

  /**
   Serialisability: in every interleaving, the committed account, history and ledger are what the
   sequential handlers produce for the logged requests in log order, with the same outcomes.
   */
  lemma {:induction false} Serialisable(id: Uuid, machines: seq<Machine>, steps: seq<Step>, i: nat)
    requires IsExecution(id, machines, steps) && i < |machines|
    ensures machines[i].store == After(id, Requests(machines[i].log))
    ensures forall k :: 0 <= k < |machines[i].log| ==>
        machines[i].log[k].outcome == OutcomeAt(id, Requests(machines[i].log), k)
  {
    ExecutionKeepsInv(id, machines, steps, i);
  }

  /** Committed rows are exactly 1 .. n, and the one row that may be pending is row n + 1. */
  lemma {:induction false} RowsAppearInOrder(id: Uuid, machines: seq<Machine>, steps: seq<Step>, i: nat)
    requires IsExecution(id, machines, steps) && i < |machines|
    ensures LedgerOk(id, machines[i].store.rows)
    ensures forall t :: t in machines[i].txs && machines[i].txs[t].PayFlushed? ==>
              machines[i].lock == Some(t) && machines[i].txs[t].entry.no == |machines[i].store.rows| + 1
  {
    ExecutionKeepsInv(id, machines, steps, i);
    var m := machines[i];
    forall t | t in m.txs && m.txs[t].PayFlushed?
      ensures m.lock == Some(t) && m.txs[t].entry.no == |m.store.rows| + 1
    {
      assert TxOk(id, m.store, m.txs[t]);
      assert m.store.rows[|m.store.rows| - 1].no == |m.store.rows|;
    }
  }

  /** The insert never violates a unique key, so no accepted payment is lost to an integrity error. */
  lemma {:induction false} FlushNeverViolates(id: Uuid, machines: seq<Machine>, steps: seq<Step>, i: nat, t: nat)
    requires IsExecution(id, machines, steps) && i < |machines|
    requires t in machines[i].txs && machines[i].txs[t].PayReady?
    ensures !ViolatesKey(machines[i].store.rows, machines[i].txs[t].entry)
  {
    ExecutionKeepsInv(id, machines, steps, i);
    var m := machines[i];
    assert TxOk(id, m.store, m.txs[t]);
    assert forall k :: 0 <= k < |m.store.rows| ==> m.store.rows[k].no == k + 1;
  }

  lemma {:induction false} StoreMovesByOneRequest(id: Uuid, machines: seq<Machine>, steps: seq<Step>, i: nat)
    requires IsExecution(id, machines, steps) && i < |steps|
    ensures StoreOk(id, machines[i].store) && IsRequest(id, machines[i], machines[i + 1])
  {
    ExecutionKeepsInv(id, machines, steps, i);
    assert Apply(id, machines[i], steps[i]) == Some(machines[i + 1]);
    StepIsRequest(id, machines[i], steps[i]);
  }

  /** DELETED is absorbing over all interleavings: no pending edit revives the account, no row is added. */
  lemma {:induction false} DeletedStays(id: Uuid, machines: seq<Machine>, steps: seq<Step>, i: nat, j: nat)
    requires IsExecution(id, machines, steps) && i <= j < |machines|
    requires machines[i].store.account.Some? && machines[i].store.account.value.fields.status == Deleted
    ensures machines[j].store == machines[i].store
  {
    if i < j {
      DeletedStays(id, machines, steps, i, j - 1);
      StoreMovesByOneRequest(id, machines, steps, j - 1);
    }
  }

  /** While the committed status is not ACTIVE, no ledger row is committed. */
  lemma {:induction false} NoRowsWhileInactive(id: Uuid, machines: seq<Machine>, steps: seq<Step>, i: nat)
    requires IsExecution(id, machines, steps) && i < |steps|
    requires machines[i].store.account.Some? && machines[i].store.account.value.fields.status != Active
    ensures machines[i + 1].store.rows == machines[i].store.rows
  {
    StoreMovesByOneRequest(id, machines, steps, i);
  }

  /**
   No lost update over all interleavings: a committed edit was computed from the state committed
   immediately before it, whose version its token names, and that state is archived.
   */
  lemma {:induction false} EditsBuildOnLatest(id: Uuid, machines: seq<Machine>, steps: seq<Step>, i: nat)
    requires IsExecution(id, machines, steps) && i < |steps| && steps[i].CommitEdit?
    ensures
      var before, after := machines[i].store, machines[i + 1].store;
      && steps[i].tx in machines[i].txs && machines[i].txs[steps[i].tx].EditFlushed?
      && var edit := machines[i].txs[steps[i].tx].edit;
      && IsCurrent(id, before, edit.token) && EditMeans(id, before, edit, after, Written)
  {
    ExecutionKeepsInv(id, machines, steps, i);
    assert Apply(id, machines[i], steps[i]) == Some(machines[i + 1]);
    CommitWritesEdit(id, machines[i], steps[i].tx, machines[i + 1]);
  }

  lemma {:induction false} CommitWritesEdit(id: Uuid, m: Machine, t: nat, m': Machine)
    requires TxsOk(id, m) && Apply(id, m, CommitEdit(t)) == Some(m')
    ensures t in m.txs && m.txs[t].EditFlushed?
    ensures IsCurrent(id, m.store, m.txs[t].edit.token) && EditMeans(id, m.store, m.txs[t].edit, m'.store, Written)
  {
    var tx := m.txs[t];
    assert TxOk(id, m.store, tx);
    assert Handle(id, m.store, EditAccount(tx.edit)) == (m'.store, Written);
    EditDoesAsAsked(id, m.store, tx.edit);
  }

  /** The log only grows, so what was decided at one moment stays decided. */
  lemma {:induction false} LogOnlyGrows(id: Uuid, machines: seq<Machine>, steps: seq<Step>, i: nat, j: nat)
    requires IsExecution(id, machines, steps) && i <= j < |machines|
    ensures machines[i].log <= machines[j].log
  {
    if i < j {
      LogOnlyGrows(id, machines, steps, i, j - 1);
      StoreMovesByOneRequest(id, machines, steps, j - 1);
    }
  }

  lemma {:induction false} RequestKeepsState(id: Uuid, store: Store, m: Machine, m': Machine)
    requires HistoryChain(store) && HistoryChain(m.store) && store.account.Some? && m.store.account.Some?
    requires store.account.value.version <= m.store.account.value.version && KeepsState(store, m.store)
    requires IsRequest(id, m, m')
    ensures m'.store.account.Some? && m.store.account.value.version <= m'.store.account.value.version
    ensures KeepsState(store, m'.store)
  {
    if m'.log != m.log {
      HandleKeepsState(id, store, m.store, m'.log[|m.log|].request);
    }
  }

  lemma {:induction false} StoreHasHistory(id: Uuid, machines: seq<Machine>, steps: seq<Step>, i: nat)
    requires IsExecution(id, machines, steps) && i < |machines|
    ensures HistoryChain(machines[i].store)
  {
    ExecutionKeepsInv(id, machines, steps, i);
  }

  /**
   History fidelity over all interleavings: at version v the history holds exactly versions 1 .. v - 1, and
   whatever state was committed at some moment is, at every later moment, still current or archived under
   the version it had.
   */
  lemma {:induction false} HistoryOverInterleavings(id: Uuid, machines: seq<Machine>, steps: seq<Step>, i: nat, j: nat)
    requires IsExecution(id, machines, steps) && i <= j < |machines| && machines[i].store.account.Some?
    ensures HistoryChain(machines[j].store) && machines[j].store.account.Some?
    ensures machines[i].store.account.value.version <= machines[j].store.account.value.version
    ensures KeepsState(machines[i].store, machines[j].store)
  {
    StoreHasHistory(id, machines, steps, j);
    if i < j {
      HistoryOverInterleavings(id, machines, steps, i, j - 1);
      StoreHasHistory(id, machines, steps, i);
      StoreMovesByOneRequest(id, machines, steps, j - 1);
      RequestKeepsState(id, machines[i].store, machines[j - 1], machines[j]);
    }
  }

  /** No lost update: of two committed edits the later one carried a strictly newer token. */
  lemma {:induction false} LaterEditHasNewerToken(id: Uuid, machines: seq<Machine>, steps: seq<Step>, i: nat, j: nat)
    requires IsExecution(id, machines, steps) && i < j < |steps| && steps[i].CommitEdit? && steps[j].CommitEdit?
    ensures steps[i].tx in machines[i].txs && machines[i].txs[steps[i].tx].EditFlushed?
    ensures steps[j].tx in machines[j].txs && machines[j].txs[steps[j].tx].EditFlushed?
    ensures machines[i].txs[steps[i].tx].edit.token.version < machines[j].txs[steps[j].tx].edit.token.version
  {
    EditsBuildOnLatest(id, machines, steps, i);
    EditsBuildOnLatest(id, machines, steps, j);
    HistoryOverInterleavings(id, machines, steps, i + 1, j);
  }

  /** The loser of a race: once another edit has committed, flushing an older snapshot is rejected. */
  lemma {:induction false} StaleEditIsRejected(id: Uuid, machines: seq<Machine>, steps: seq<Step>, i: nat)
    requires IsExecution(id, machines, steps) && i < |steps| && steps[i].FlushEdit?
    ensures steps[i].tx in machines[i].txs && machines[i].txs[steps[i].tx].EditLoaded?
    ensures
      var m, m', tx := machines[i], machines[i + 1], machines[i].txs[steps[i].tx];
      if m.store.account == Some(tx.loaded)
      then m'.txs[steps[i].tx] == EditFlushed(tx.edit, tx.loaded, tx.fields) && m'.log == m.log
      else steps[i].tx !in m'.txs && m'.store == m.store && m'.log == m.log + [Event(EditAccount(tx.edit), Rejected)]
  {
    ExecutionKeepsInv(id, machines, steps, i);
    assert Apply(id, machines[i], steps[i]) == Some(machines[i + 1]);
    assert TxOk(id, machines[i].store, machines[i].txs[steps[i].tx]);
  }

  // ------------------------------------------------------------------ the steps do what the handlers do

  function ApplyAll(id: Uuid, m: Machine, steps: seq<Step>): Option<Machine> {
    if steps == [] then Some(m)
    else
      match ApplyAll(id, m, steps[..|steps| - 1])
      case None => None
      case Some(before) => Apply(id, before, steps[|steps| - 1])
  }

  /** The statements a payment that nobody disturbs gets to run, by where it ends. */
  function PaymentSteps(t: nat, p: Payment, outcome: Outcome): seq<Step> {
    match outcome
    case UnknownAccount => [LockById(t, p)]
    case NotActive => [LockById(t, p)]
    case Duplicate => [LockById(t, p), CheckOperation(t)]
    case Accepted => [LockById(t, p), CheckOperation(t), FindLastEntry(t), FlushEntry(t), CommitEntry(t)]
    case _ => [LockById(t, p), CheckOperation(t), FindLastEntry(t)]
  }

  /** An active account's payment that is new: the row is locked, and the operation id looked up. */
  lemma {:induction false} LockAndCheck(id: Uuid, m: Machine, t: nat, p: Payment, m1: Machine, m2: Machine)
    requires m.lock.None? && t !in m.txs && PayOk(m.store, p)
    requires m1 == m.(txs := m.txs[t := PayLocked(p)], lock := Some(t))
    requires m2 == m.(txs := m.txs[t := PayFresh(p)], lock := Some(t))
    ensures Apply(id, m, LockById(t, p)) == Some(m1)
    ensures Apply(id, m1, CheckOperation(t))
            == Some(if HasOperation(m.store.rows, p.id) then Log(m, Pay(p), Duplicate) else m2)
  {
    assert m1.txs - {t} == m.txs && m1.txs[t := PayFresh(p)] == m2.txs;
  }

  lemma {:induction false} RefusedPayment(id: Uuid, m: Machine, t: nat, p: Payment, outcome: Outcome)
    requires m.lock.None? && t !in m.txs && Settle(m.store, p) == (m.store, outcome)
    requires outcome == UnknownAccount || outcome == NotActive
    ensures ApplyAll(id, m, PaymentSteps(t, p, outcome)) == Some(Log(m, Pay(p), outcome))
  {
    ApplyOne(id, LockById(t, p), m, Log(m, Pay(p), outcome));
  }

  lemma {:induction false} DuplicatePayment(id: Uuid, m: Machine, t: nat, p: Payment)
    requires m.lock.None? && t !in m.txs && PayOk(m.store, p) && HasOperation(m.store.rows, p.id)
    ensures ApplyAll(id, m, PaymentSteps(t, p, Duplicate)) == Some(Log(m, Pay(p), Duplicate))
  {
    var m1 := m.(txs := m.txs[t := PayLocked(p)], lock := Some(t));
    LockAndCheck(id, m, t, p, m1, m.(txs := m.txs[t := PayFresh(p)], lock := Some(t)));
    ApplyTwo(id, LockById(t, p), CheckOperation(t), m, m1, Log(m, Pay(p), Duplicate));
  }

  lemma {:induction false} UncoveredPayment(id: Uuid, m: Machine, t: nat, p: Payment, outcome: Outcome)
    requires m.lock.None? && t !in m.txs && PayOk(m.store, p) && Settle(m.store, p) == (m.store, outcome)
    requires outcome == NoLedger || outcome == Insufficient
    ensures ApplyAll(id, m, PaymentSteps(t, p, outcome)) == Some(Log(m, Pay(p), outcome))
  {
    var m1 := m.(txs := m.txs[t := PayLocked(p)], lock := Some(t));
    var m2 := m.(txs := m.txs[t := PayFresh(p)], lock := Some(t));
    LockAndCheck(id, m, t, p, m1, m2);
    assert m2.txs - {t} == m.txs;
    ApplyThree(id, LockById(t, p), CheckOperation(t), FindLastEntry(t), m, m1, m2, Log(m, Pay(p), outcome));
  }

  lemma {:induction false} EntryStatements(id: Uuid, m: Machine, t: nat, p: Payment, entry: Row,
                                           m2: Machine, m3: Machine, m4: Machine)
    requires ValidChain(m.store.rows) && Settle(m.store, p).1 == Accepted && t !in m.txs && m.lock.None?
    requires entry == Follow(m.store.rows[|m.store.rows| - 1], p.signedAmount, p.operationType, p.id)
    requires m2 == m.(txs := m.txs[t := PayFresh(p)], lock := Some(t))
    requires m3 == m.(txs := m.txs[t := PayReady(p, entry)], lock := Some(t))
    requires m4 == m.(txs := m.txs[t := PayFlushed(p, entry)], lock := Some(t))
    ensures Apply(id, m2, FindLastEntry(t)) == Some(m3) && Apply(id, m3, FlushEntry(t)) == Some(m4)
    ensures Apply(id, m4, CommitEntry(t)) == Some(Log(m.(store := Settle(m.store, p).0), Pay(p), Accepted))
  {
    assert forall k :: 0 <= k < |m.store.rows| ==> m.store.rows[k].no == k + 1;
    assert !ViolatesKey(m.store.rows, entry);
    assert m2.txs[t := PayReady(p, entry)] == m3.txs && m3.txs[t := PayFlushed(p, entry)] == m4.txs;
    assert m4.txs - {t} == m.txs;
  }

  lemma {:induction false} AcceptedPayment(id: Uuid, m: Machine, t: nat, p: Payment)
    requires ValidChain(m.store.rows) && m.lock.None? && t !in m.txs && Settle(m.store, p).1 == Accepted
    ensures ApplyAll(id, m, PaymentSteps(t, p, Accepted))
        == Some(Log(m.(store := Settle(m.store, p).0), Pay(p), Accepted))
  {
    var entry := Follow(m.store.rows[|m.store.rows| - 1], p.signedAmount, p.operationType, p.id);
    var m1 := m.(txs := m.txs[t := PayLocked(p)], lock := Some(t));
    var m2 := m.(txs := m.txs[t := PayFresh(p)], lock := Some(t));
    var m3 := m.(txs := m.txs[t := PayReady(p, entry)], lock := Some(t));
    var m4 := m.(txs := m.txs[t := PayFlushed(p, entry)], lock := Some(t));
    LockAndCheck(id, m, t, p, m1, m2);
    EntryStatements(id, m, t, p, entry, m2, m3, m4);
    ApplyFive(id, LockById(t, p), CheckOperation(t), FindLastEntry(t), FlushEntry(t), CommitEntry(t),
              m, m1, m2, m3, m4, Log(m.(store := Settle(m.store, p).0), Pay(p), Accepted));
  }

  /**
   Left alone, a payment transaction runs through to the sequential handler's outcome, whichever it is,
   with that handler's effect; lock and transaction are gone.
   */
  lemma {:induction false} UncontendedPayment(id: Uuid, m: Machine, t: nat, p: Payment)
    requires StoreOk(id, m.store) && m.lock.None? && t !in m.txs
    ensures ApplyAll(id, m, PaymentSteps(t, p, Settle(m.store, p).1))
            == Some(Log(m.(store := Settle(m.store, p).0), Pay(p), Settle(m.store, p).1))
  {
    var outcome := Settle(m.store, p).1;
    assert outcome != Accepted ==> m.(store := Settle(m.store, p).0) == m;
    if outcome == UnknownAccount || outcome == NotActive {
      RefusedPayment(id, m, t, p, outcome);
    } else if outcome == Duplicate {
      DuplicatePayment(id, m, t, p);
    } else if outcome == Accepted {
      AcceptedPayment(id, m, t, p);
    } else {
      UncoveredPayment(id, m, t, p, outcome);
    }
  }

  /** The statements an edit that nobody disturbs gets to run. */
  function EditSteps(t: nat, edit: Edit, outcome: Outcome): seq<Step> {
    if outcome == Written then [LoadAccount(t, edit), FlushEdit(t), CommitEdit(t)] else [LoadAccount(t, edit)]
  }

  /** Likewise an edit: load, flush and commit have exactly the sequential effect and outcome. */
  lemma {:induction false} UncontendedEdit(id: Uuid, m: Machine, t: nat, edit: Edit)
    requires m.lock.None? && t !in m.txs
    ensures ApplyAll(id, m, EditSteps(t, edit, Revise(id, m.store, edit).1))
            == Some(Log(m.(store := Revise(id, m.store, edit).0), EditAccount(edit), Revise(id, m.store, edit).1))
  {
    var (store, outcome) := Revise(id, m.store, edit);
    var end := Log(m.(store := store), EditAccount(edit), outcome);
    if outcome == Written {
      var loaded, fields := m.store.account.value, Decide(id, m.store.account, edit).fields;
      var m1 := m.(txs := m.txs[t := EditLoaded(edit, loaded, fields)]);
      var m2 := m.(txs := m.txs[t := EditFlushed(edit, loaded, fields)], lock := Some(t));
      assert m1.txs[t := EditFlushed(edit, loaded, fields)] == m2.txs;
      assert m2.txs - {t} == m.txs;
      ApplyThree(id, LoadAccount(t, edit), FlushEdit(t), CommitEdit(t), m, m1, m2, end);
    } else {
      ApplyOne(id, LoadAccount(t, edit), m, end);
    }
  }

  /** And a creation: the account and its opening row appear together. */
  lemma {:induction false} UncontendedCreate(id: Uuid, m: Machine, t: nat, fields: Fields)
    requires m.store.account.None? && t !in m.txs && forall u :: u in m.txs ==> !m.txs[u].Creating?
    ensures ApplyAll(id, m, [BeginCreate(t, fields), CommitCreate(t)])
            == Some(Log(m.(store := Handle(id, m.store, CreateAccount(fields)).0,
                           lock := if m.lock == Some(t) then None else m.lock), CreateAccount(fields), Created))
  {
    var m1 := m.(txs := m.txs[t := Creating(fields)]);
    var store := Handle(id, m.store, CreateAccount(fields)).0;
    var ended := m.(store := store, lock := if m.lock == Some(t) then None else m.lock);
    var end := Log(ended, CreateAccount(fields), Created);
    assert m1.txs - {t} == m.txs;
    ApplyTwo(id, BeginCreate(t, fields), CommitCreate(t), m, m1, end);
  }

  lemma {:induction false} ApplyOne(id: Uuid, s1: Step, m: Machine, m1: Machine)
    requires Apply(id, m, s1) == Some(m1)
    ensures ApplyAll(id, m, [s1]) == Some(m1)
  {
    ApplyLast(id, m, [], s1, m, m1);
    assert [] + [s1] == [s1];
  }

  lemma {:induction false} ApplyTwo(id: Uuid, s1: Step, s2: Step, m: Machine, m1: Machine, m2: Machine)
    requires Apply(id, m, s1) == Some(m1) && Apply(id, m1, s2) == Some(m2)
    ensures ApplyAll(id, m, [s1, s2]) == Some(m2)
  {
    ApplyOne(id, s1, m, m1);
    ApplyLast(id, m, [s1], s2, m1, m2);
    assert [s1] + [s2] == [s1, s2];
  }

  lemma {:induction false} ApplyThree(id: Uuid, s1: Step, s2: Step, s3: Step,
                                      m: Machine, m1: Machine, m2: Machine, m3: Machine)
    requires Apply(id, m, s1) == Some(m1) && Apply(id, m1, s2) == Some(m2) && Apply(id, m2, s3) == Some(m3)
    ensures ApplyAll(id, m, [s1, s2, s3]) == Some(m3)
  {
    ApplyTwo(id, s1, s2, m, m1, m2);
    ApplyLast(id, m, [s1, s2], s3, m2, m3);
    assert [s1, s2] + [s3] == [s1, s2, s3];
  }

  lemma {:induction false} ApplyFive(id: Uuid, s1: Step, s2: Step, s3: Step, s4: Step, s5: Step,
                                     m: Machine, m1: Machine, m2: Machine, m3: Machine, m4: Machine, m5: Machine)
    requires Apply(id, m, s1) == Some(m1) && Apply(id, m1, s2) == Some(m2) && Apply(id, m2, s3) == Some(m3)
    requires Apply(id, m3, s4) == Some(m4) && Apply(id, m4, s5) == Some(m5)
    ensures ApplyAll(id, m, [s1, s2, s3, s4, s5]) == Some(m5)
  {
    ApplyThree(id, s1, s2, s3, m, m1, m2, m3);
    ApplyLast(id, m, [s1, s2, s3], s4, m3, m4);
    assert [s1, s2, s3] + [s4] == [s1, s2, s3, s4];
    ApplyLast(id, m, [s1, s2, s3, s4], s5, m4, m5);
    assert [s1, s2, s3, s4] + [s5] == [s1, s2, s3, s4, s5];
  }

  lemma {:induction false} ApplyLast(id: Uuid, m: Machine, steps: seq<Step>, step: Step, before: Machine,
                                     after: Machine)
    requires ApplyAll(id, m, steps) == Some(before) && Apply(id, before, step) == Some(after)
    ensures ApplyAll(id, m, steps + [step]) == Some(after)
  {
    assert (steps + [step])[..|steps|] == steps;
  }
}
