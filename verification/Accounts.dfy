/**
 One account as the handlers see it, one request at a time: creating it, paying into and out of its
 ledger, and editing it under a version token with its old states archived.
 */
module Accounts {
  import opened Wrappers
  import opened Ledger

  datatype Status = Active | Disabled | Deleted

  /** The update schema admits ACTIVE and DISABLED only. */
  type LiveStatus = s: Status | s != Deleted witness Active

  datatype Fields = Fields(customerId: Uuid, currency: string, name: Option<string>, status: Status, updatedBy: Uuid)

  datatype Versioned = Versioned(fields: Fields, version: int)

  /** An injective tag of an entity at a version; the MAC behind it is not modelled. */
  datatype Token = Token(id: Uuid, version: int)

  datatype Edit =
    | Update(token: Token, name: Option<string>, status: Option<LiveStatus>, actor: Uuid)
    | Delete(token: Token, actor: Uuid)

  datatype Payment = Payment(id: Uuid, operationType: OperationType, signedAmount: int)

  datatype Request = CreateAccount(fields: Fields) | Pay(payment: Payment) | EditAccount(edit: Edit)

  datatype Outcome =
    | Created | Rejected | Unchanged | Written
    | Accepted | Duplicate | UnknownAccount | NotActive | NoLedger | Insufficient

  /** The committed rows of the account, its history table and its ledger. */
  datatype Store = Store(account: Option<Versioned>, history: seq<Versioned>, rows: seq<Row>)

  const EMPTY_STORE := Store(None, [], [])

  // ------------------------------------------------------------------ the handlers, one at a time

  predicate HasOperation(rows: seq<Row>, operationId: Uuid) {
    exists i :: 0 <= i < |rows| && rows[i].operationId == operationId
  }

  /** The payment handler: status, then duplicate, then last row, then balance, then append. */
  function Settle(store: Store, p: Payment): (Store, Outcome) {
    if store.account.None? then (store, UnknownAccount)
    else if store.account.value.fields.status != Active then (store, NotActive)
    else if HasOperation(store.rows, p.id) then (store, Duplicate)
    else if store.rows == [] then (store, NoLedger)
    else
      var previous := store.rows[|store.rows| - 1];
      if previous.balance + p.signedAmount < 0 then (store, Insufficient)
      else (store.(rows := store.rows + [Follow(previous, p.signedAmount, p.operationType, p.id)]), Accepted)
  }

  datatype Decision = NotFound | Conflict | Write(fields: Fields)

  function Edited(fields: Fields, edit: Edit): Fields {
    match edit
    case Update(_, name, status, actor) =>
      fields.(name := if name.Some? then name else fields.name,
              status := if status.Some? then status.value else fields.status,
              updatedBy := actor)
    case Delete(_, actor) => fields.(status := Deleted, updatedBy := actor)
  }

  /** What the update and delete handlers make of the row they loaded. */
  function Decide(id: Uuid, loaded: Option<Versioned>, edit: Edit): Decision {
    if loaded.None? || loaded.value.fields.status == Deleted then NotFound
    else if edit.token != Token(id, loaded.value.version) then Conflict
    else Write(Edited(loaded.value.fields, edit))
  }

  /** A flush that changes something archives the old state and bumps the version; otherwise nothing happens. */
  function Revise(id: Uuid, store: Store, edit: Edit): (Store, Outcome) {
    match Decide(id, store.account, edit)
    case NotFound => (store, Rejected)
    case Conflict => (store, Rejected)
    case Write(fields) =>
      var loaded := store.account.value;
      if fields == loaded.fields then (store, Unchanged)
      else
        var account := Some(Versioned(fields, loaded.version + 1));
        (store.(account := account, history := store.history + [loaded]), Written)
  }

  function Handle(id: Uuid, store: Store, request: Request): (Store, Outcome) {
    match request
    case CreateAccount(fields) =>
      if store.account.Some? then (store, Rejected)
      else
        var account := Some(Versioned(fields.(status := Active), 1));
        (store.(account := account, rows := store.rows + [Create(id)]), Created)
    case Pay(payment) => Settle(store, payment)
    case EditAccount(edit) => Revise(id, store, edit)
  }

  /** The store after a sequence of requests. */
  function After(id: Uuid, requests: seq<Request>): Store {
    if requests == [] then EMPTY_STORE
    else Handle(id, After(id, requests[..|requests| - 1]), requests[|requests| - 1]).0
  }

  function OutcomeAt(id: Uuid, requests: seq<Request>, i: nat): Outcome
    requires i < |requests|
  {
    Handle(id, After(id, requests[..i]), requests[i]).1
  }

  lemma {:induction false} AfterStep(id: Uuid, requests: seq<Request>, i: nat)
    requires i < |requests|
    ensures After(id, requests[..i + 1]) == Handle(id, After(id, requests[..i]), requests[i]).0
  {
    assert requests[..i + 1][..i] == requests[..i];
  }

  // ------------------------------------------------------------------ what every store satisfies

  ghost predicate HistoryChain(store: Store) {
    && (store.account.None? ==> store.history == [])
    && (store.account.Some? ==> store.account.value.version == |store.history| + 1)
    && forall k :: 0 <= k < |store.history| ==> store.history[k].version == k + 1
  }

  ghost predicate LedgerOk(id: Uuid, rows: seq<Row>) {
    && ValidChain(rows)
    && (forall i :: 0 <= i < |rows| ==> rows[i].accountId == id && rows[i].balance >= 0)
    && (forall i, j :: 0 <= i < j < |rows| ==> rows[i].operationId != rows[j].operationId)
  }

  ghost predicate StoreOk(id: Uuid, store: Store) {
    && HistoryChain(store) && LedgerOk(id, store.rows)
    && (store.account.None? <==> store.rows == [])
    && (store.rows != [] ==> store.rows[0] == Create(id))
  }

  lemma {:induction false} GenesisIsOk(id: Uuid)
    ensures LedgerOk(id, [Create(id)])
  {
    assert BalanceBefore([Create(id)], 0) == 0;
  }

  lemma {:induction false} SettleKeepsLedgerOk(id: Uuid, store: Store, p: Payment)
    requires LedgerOk(id, store.rows)
    ensures LedgerOk(id, Settle(store, p).0.rows) && store.rows <= Settle(store, p).0.rows
  {
    if Settle(store, p).1 == Accepted {
      FollowExtendsChain(store.rows, p.signedAmount, p.operationType, p.id);
    }
  }

  lemma {:induction false} HandleKeepsStoreOk(id: Uuid, store: Store, request: Request)
    requires StoreOk(id, store)
    ensures StoreOk(id, Handle(id, store, request).0)
  {
    match request
    case CreateAccount(_) =>
      if store.account.None? {
        assert Handle(id, store, request).0.rows == [Create(id)];
        GenesisIsOk(id);
      }
    case Pay(p) => SettleKeepsLedgerOk(id, store, p);
    case EditAccount(_) =>
  }

  lemma {:induction false} AfterIsOk(id: Uuid, requests: seq<Request>)
    ensures StoreOk(id, After(id, requests))
  {
    if requests != [] {
      AfterIsOk(id, requests[..|requests| - 1]);
      HandleKeepsStoreOk(id, After(id, requests[..|requests| - 1]), requests[|requests| - 1]);
    }
  }

  // ------------------------------------------------------------------ exactly once, and conservation

  /** The payments that were accepted, in order. */
  function AcceptedPayments(id: Uuid, requests: seq<Request>): seq<Payment> {
    if requests == [] then []
    else
      var last := |requests| - 1;
      AcceptedPayments(id, requests[..last]) +
      if OutcomeAt(id, requests, last) == Accepted && requests[last].Pay? then [requests[last].payment] else []
  }

  function Sum(payments: seq<Payment>): int {
    if payments == [] then 0 else Sum(payments[..|payments| - 1]) + payments[|payments| - 1].signedAmount
  }

  /** The ledger is the genesis row followed by one row for each accepted payment, in order. */
  ghost predicate RowsArePayments(rows: seq<Row>, payments: seq<Payment>) {
    if rows == [] then payments == []
    else
      && |rows| == |payments| + 1 && rows[0].operationType == OpCreate && rows[0].amount == 0
      && forall i :: 0 <= i < |payments| ==>
           && rows[i + 1].operationId == payments[i].id && rows[i + 1].amount == payments[i].signedAmount
           && rows[i + 1].operationType == payments[i].operationType
  }

  lemma {:induction false} RequestRecordsAccepted(id: Uuid, store: Store, request: Request, payments: seq<Payment>)
    requires StoreOk(id, store) && RowsArePayments(store.rows, payments)
    ensures
      var (store', outcome) := Handle(id, store, request);
      RowsArePayments(store'.rows, payments + if outcome == Accepted && request.Pay? then [request.payment] else [])
  {
  }

  lemma {:induction false} LedgerRecordsAccepted(id: Uuid, requests: seq<Request>)
    ensures RowsArePayments(After(id, requests).rows, AcceptedPayments(id, requests))
  {
    if requests != [] {
      var last := |requests| - 1;
      LedgerRecordsAccepted(id, requests[..last]);
      AfterIsOk(id, requests[..last]);
      RequestRecordsAccepted(id, After(id, requests[..last]), requests[last], AcceptedPayments(id, requests[..last]));
    }
  }

  lemma {:induction false} SumIsTotal(rows: seq<Row>, payments: seq<Payment>)
    requires rows != [] && RowsArePayments(rows, payments)
    ensures Total(rows) == Sum(payments)
  {
    if payments == [] {
      assert rows[..0] == [];
    } else {
      SumIsTotal(rows[..|rows| - 1], payments[..|payments| - 1]);
    }
  }

  /**
   Under any redelivery: no operation id is accepted twice, no stored balance is negative, and the last
   balance is the sum of the accepted signed amounts.
   */
  lemma {:induction false} ExactlyOnceAndConserved(id: Uuid, requests: seq<Request>)
    ensures
      var payments, rows := AcceptedPayments(id, requests), After(id, requests).rows;
      && (forall i, j :: 0 <= i < j < |payments| ==> payments[i].id != payments[j].id)
      && (forall i :: 0 <= i < |rows| ==> rows[i].balance >= 0)
      && BalanceBefore(rows, |rows|) == Sum(payments)
  {
    var payments, rows := AcceptedPayments(id, requests), After(id, requests).rows;
    LedgerRecordsAccepted(id, requests);
    AfterIsOk(id, requests);
    forall i, j | 0 <= i < j < |payments| ensures payments[i].id != payments[j].id {
      assert rows[i + 1].operationId != rows[j + 1].operationId;
    }
    if rows != [] {
      SumIsTotal(rows, payments);
      BalanceIsTotal(rows, |rows|);
      assert rows[..|rows|] == rows;
    }
  }

  /**
   A payment to an active account is dropped as a duplicate exactly when the same operation id was
   accepted before, or when its id happens to be the account's own id, which the genesis row carries.
   */
  lemma {:induction false} DroppedIffSeenBefore(id: Uuid, requests: seq<Request>, p: Payment)
    requires After(id, requests).account.Some? && After(id, requests).account.value.fields.status == Active
    ensures Settle(After(id, requests), p).1 == Duplicate <==>
        p.id == id || Includes(AcceptedPayments(id, requests), p.id)
  {
    LedgerRecordsAccepted(id, requests);
    AfterIsOk(id, requests);
    RowOfOperation(After(id, requests).rows, AcceptedPayments(id, requests), p.id);
  }

  predicate Includes(payments: seq<Payment>, operationId: Uuid) {
    exists i :: 0 <= i < |payments| && payments[i].id == operationId
  }

  lemma {:induction false} RowOfOperation(rows: seq<Row>, payments: seq<Payment>, operationId: Uuid)
    requires rows != [] && RowsArePayments(rows, payments)
    ensures HasOperation(rows, operationId) <==>
              rows[0].operationId == operationId || Includes(payments, operationId)
  {
    if i :| 0 < i < |rows| && rows[i].operationId == operationId {
      assert payments[i - 1].id == operationId;
    }
    if i :| 0 <= i < |payments| && payments[i].id == operationId {
      assert rows[i + 1].operationId == operationId;
    }
  }

  /**
   What a payment is for, in terms of the request history: the outcome in all cases, and the row it appends
   if it is accepted, which continues the numbering and adds to the sum of what was accepted before.
   */
  lemma {:induction false} PaymentDecides(id: Uuid, requests: seq<Request>, p: Payment)
    ensures
      var store, payments := After(id, requests), AcceptedPayments(id, requests);
      var balance := Sum(payments) + p.signedAmount;
      Settle(store, p) ==
      if store.account.None? then (store, UnknownAccount)
      else if store.account.value.fields.status != Active then (store, NotActive)
      else if p.id == id || Includes(payments, p.id) then (store, Duplicate)
      else if balance < 0 then (store, Insufficient)
      else
        var row := Row(id, |payments| + 2, p.signedAmount, balance, p.operationType, p.id);
        (store.(rows := store.rows + [row]), Accepted)
  {
    var store := After(id, requests);
    if store.account.Some? && store.account.value.fields.status == Active {
      DroppedIffSeenBefore(id, requests, p);
      ExactlyOnceAndConserved(id, requests);
      AfterIsOk(id, requests);
      LedgerRecordsAccepted(id, requests);
      assert store.rows[|store.rows| - 1].no == |store.rows|;
    }
  }

  /**
   After any history of requests, a payment is accepted exactly when its account is active, its id is
   neither the account's own nor already accepted, and the accepted amounts can bear it.
   */
  lemma {:induction false} AcceptedIff(id: Uuid, requests: seq<Request>, p: Payment)
    ensures
      var store, payments := After(id, requests), AcceptedPayments(id, requests);
      Settle(store, p).1 == Accepted <==>
        && store.account.Some? && store.account.value.fields.status == Active
        && p.id != id && !Includes(payments, p.id)
        && Sum(payments) + p.signedAmount >= 0
  {
    PaymentDecides(id, requests, p);
  }

  /** An active account without any ledger row, which no handler leaves behind, refuses every payment. */
  lemma {:induction false} PaymentWithoutLedger(store: Store, p: Payment)
    requires store.account.Some? && store.account.value.fields.status == Active && store.rows == []
    ensures Settle(store, p) == (store, NoLedger)
  {
  }

  /** So a first delivery can be lost: this payment is new, its account is active, and it has no effect. */
  lemma {:induction false} AccountIdAsPaymentIdIsSwallowed(id: Uuid, fields: Fields)
    ensures
      var requests := [CreateAccount(fields)];
      var p := Payment(id, OpDeposit, 100);
      && AcceptedPayments(id, requests) == []
      && After(id, requests).account.Some? && After(id, requests).account.value.fields.status == Active
      && Settle(After(id, requests), p) == (After(id, requests), Duplicate)
  {
    var requests := [CreateAccount(fields)];
    assert requests[..0] == [];
    var store := After(id, requests);
    assert store == Handle(id, After(id, []), requests[0]).0;
    assert store.rows == [Create(id)] && store.rows[0].operationId == id;
  }

  // ------------------------------------------------------------------ history, lost updates, deletion

  /** The state a store had is still its current state, or is archived under its version. */
  ghost predicate KeepsState(store: Store, later: Store)
    requires store.account.Some? && later.account.Some?
  {
    var v := store.account.value.version;
    if v == later.account.value.version then later.account == store.account
    else 1 <= v <= |later.history| && later.history[v - 1] == store.account.value
  }

  lemma {:induction false} HandleKeepsState(id: Uuid, store: Store, middle: Store, request: Request)
    requires HistoryChain(store) && HistoryChain(middle) && store.account.Some? && middle.account.Some?
    requires store.account.value.version <= middle.account.value.version && KeepsState(store, middle)
    ensures var later := Handle(id, middle, request).0;
            && later.account.Some? && middle.account.value.version <= later.account.value.version
            && KeepsState(store, later)
  {
  }

  lemma {:induction false} AfterKeepsHistoryChain(id: Uuid, requests: seq<Request>)
    ensures HistoryChain(After(id, requests))
  {
    AfterIsOk(id, requests);
  }

  /**
   History fidelity: at version v the history holds exactly versions 1 .. v - 1, and row k is the
   state the account had when its version was k.
   */
  lemma {:induction false} HistoryFidelity(id: Uuid, requests: seq<Request>, i: nat, j: nat)
    requires i <= j <= |requests| && After(id, requests[..i]).account.Some?
    ensures HistoryChain(After(id, requests[..j])) && After(id, requests[..j]).account.Some?
    ensures After(id, requests[..i]).account.value.version <= After(id, requests[..j]).account.value.version
    ensures KeepsState(After(id, requests[..i]), After(id, requests[..j]))
  {
    AfterKeepsHistoryChain(id, requests[..j]);
    if i < j {
      HistoryFidelity(id, requests, i, j - 1);
      var store, middle := After(id, requests[..i]), After(id, requests[..j - 1]);
      AfterKeepsHistoryChain(id, requests[..i]);
      AfterStep(id, requests, j - 1);
      HandleKeepsState(id, store, middle, requests[j - 1]);
    }
  }

  /** No lost update: a written edit carried the token of the state it replaced, and no token wins twice. */
  lemma {:induction false} NoTokenWinsTwice(id: Uuid, requests: seq<Request>, i: nat, j: nat)
    requires i < j < |requests| && requests[i].EditAccount? && requests[j].EditAccount?
    requires OutcomeAt(id, requests, i) == Written && OutcomeAt(id, requests, j) == Written
    ensures requests[i].edit.token.version < requests[j].edit.token.version
  {
    assert requests[..i + 1][..i] == requests[..i];
    HistoryFidelity(id, requests, i + 1, j);
  }

  /** Exactly the state the edit asked for: what it gives is there, and what it leaves out keeps its value. */
  ghost predicate AsAsked(before: Fields, edit: Edit, after: Fields) {
    && after.customerId == before.customerId && after.currency == before.currency && after.updatedBy == edit.actor
    && (match edit
        case Delete(_, _) => after.status == Deleted && after.name == before.name
        case Update(_, name, status, _) =>
          && (if name.Some? then after.name == name else after.name == before.name)
          && (if status.Some? then after.status == status.value else after.status == before.status))
  }

  /** The token names an account that is there, has not been deleted, and is at the token's version. */
  ghost predicate IsCurrent(id: Uuid, store: Store, token: Token) {
    && store.account.Some? && store.account.value.fields.status != Deleted
    && token.id == id && token.version == store.account.value.version
  }

  /**
   What an edit is for. Without a current token it is rejected and changes nothing. With one, the account
   afterwards is as asked: unchanged if it was so before, and otherwise one version on with the old state
   archived. The ledger is never touched.
   */
  ghost predicate EditMeans(id: Uuid, store: Store, edit: Edit, later: Store, outcome: Outcome) {
    if !IsCurrent(id, store, edit.token) then outcome == Rejected && later == store
    else
      var loaded := store.account.value;
      && later.account.Some? && later.rows == store.rows
      && AsAsked(loaded.fields, edit, later.account.value.fields)
      && (outcome == Unchanged <==> AsAsked(loaded.fields, edit, loaded.fields))
      && if outcome == Unchanged then later == store
         else
           && outcome == Written && later.account.value.version == loaded.version + 1
           && later.history == store.history + [loaded]
  }

  lemma {:induction false} EditDoesAsAsked(id: Uuid, store: Store, edit: Edit)
    ensures
      var (later, outcome) := Handle(id, store, EditAccount(edit));
      EditMeans(id, store, edit, later, outcome)
  {
    if IsCurrent(id, store, edit.token) {
      OnlyOneStateIsAsked(store.account.value.fields, edit, Edited(store.account.value.fields, edit));
    }
  }

  lemma {:induction false} OnlyOneStateIsAsked(before: Fields, edit: Edit, after: Fields)
    requires AsAsked(before, edit, after)
    ensures AsAsked(before, edit, before) <==> before == after
  {
  }

  /** A creation stores what it was given, active, at version 1, with the opening row; a second one is rejected. */
  lemma {:induction false} CreationStoresAsGiven(id: Uuid, store: Store, fields: Fields)
    requires StoreOk(id, store)
    ensures
      Handle(id, store, CreateAccount(fields)) ==
      if store.account.Some? then (store, Rejected)
      else
        var stored := Fields(fields.customerId, fields.currency, fields.name, Active, fields.updatedBy);
        (Store(Some(Versioned(stored, 1)), [], [Row(id, 1, 0, 0, OpCreate, id)]), Created)
  {
    if store.account.None? {
      assert store.rows + [Create(id)] == [Row(id, 1, 0, 0, OpCreate, id)];
    }
  }

  lemma {:induction false} ChangeIsAsked(id: Uuid, store: Store, request: Request)
    requires store.account.Some?
    ensures
      var (later, outcome) := Handle(id, store, request);
      && later.account.Some?
      && var before, after := store.account.value.fields, later.account.value.fields;
      && after.customerId == before.customerId && after.currency == before.currency
      && (after == before || (request.EditAccount? && outcome == Written && AsAsked(before, request.edit, after)))
  {
  }

  /** Between two moments of any history, a changed status, name or actor is the doing of a written edit in between. */
  lemma {:induction false} ChangesComeFromEdits(id: Uuid, requests: seq<Request>, i: nat, j: nat)
    requires i <= j <= |requests| && After(id, requests[..i]).account.Some?
    ensures After(id, requests[..j]).account.Some?
    ensures
      var before, after := After(id, requests[..i]).account.value.fields, After(id, requests[..j]).account.value.fields;
      && after.customerId == before.customerId && after.currency == before.currency
      && (after == before || exists k :: i <= k < j && WrittenEdit(id, requests, k, after))
  {
    if i < j {
      ChangesComeFromEdits(id, requests, i, j - 1);
      AfterStep(id, requests, j - 1);
      var middle, after := After(id, requests[..j - 1]), After(id, requests[..j]);
      ChangeIsAsked(id, middle, requests[j - 1]);
      if after.account.value.fields != middle.account.value.fields {
        assert WrittenEdit(id, requests, j - 1, after.account.value.fields);
      }
    }
  }

  ghost predicate WrittenEdit(id: Uuid, requests: seq<Request>, k: nat, after: Fields)
    requires k < |requests|
  {
    && requests[k].EditAccount? && OutcomeAt(id, requests, k) == Written
    && After(id, requests[..k]).account.Some?
    && AsAsked(After(id, requests[..k]).account.value.fields, requests[k].edit, after)
  }

  /** DELETED is absorbing: nothing about a deleted account ever changes again. */
  lemma {:induction false} DeletedIsAbsorbing(id: Uuid, requests: seq<Request>, i: nat)
    requires i <= |requests| && After(id, requests[..i]).account.Some?
    requires After(id, requests[..i]).account.value.fields.status == Deleted
    ensures After(id, requests) == After(id, requests[..i])
  {
    if i == |requests| {
      assert requests[..i] == requests;
    } else {
      var init := requests[..|requests| - 1];
      assert init[..i] == requests[..i];
      DeletedIsAbsorbing(id, init, i);
    }
  }

  // ------------------------------------------------------------------ the payment handler as written

  class Database {
    var account: Option<Versioned>
    var history: seq<Versioned>
    var rows: seq<Row>

    constructor ()
      ensures Contents() == EMPTY_STORE
    {
      account, history, rows := None, [], [];
    }

    function Contents(): Store
      reads this
    {
      Store(account, history, rows)
    }

    /**
     The create handler: the account and its genesis row, or an integrity error. A customer has one account
     per currency; `taken` holds the pairs that other accounts have.
     */
    method CreateCustomerAccount(id: Uuid, fields: Fields, taken: set<(Uuid, string)>) returns (outcome: Outcome)
      modifies this
      ensures (fields.customerId, fields.currency) in taken ==> outcome == Rejected && Contents() == old(Contents())
      ensures (fields.customerId, fields.currency) !in taken ==>
                (Contents(), outcome) == Handle(id, old(Contents()), CreateAccount(fields))
    {
      if account.Some? || (fields.customerId, fields.currency) in taken {
        return Rejected;
      }
      account := Some(Versioned(fields.(status := Active), 1));
      rows := rows + [Create(id)];
      outcome := Created;
    }

    /** The consumer's transaction run on its own: every early exit leaves the ledger alone. */
    method OnCreatePayment(p: Payment) returns (outcome: Outcome)
      modifies this`rows
      ensures (Contents(), outcome) == Settle(old(Contents()), p)
    {
      if account.None? {
        return UnknownAccount;
      }
      if account.value.fields.status != Active {
        return NotActive;
      }
      if HasOperation(rows, p.id) {
        return Duplicate;
      }
      if rows == [] {
        return NoLedger;
      }
      var previous := rows[|rows| - 1];
      var balanceAfter := previous.balance + p.signedAmount;
      if balanceAfter < 0 {
        return Insufficient;
      }
      rows := rows + [Follow(previous, p.signedAmount, p.operationType, p.id)];
      outcome := Accepted;
    }
  }
}
