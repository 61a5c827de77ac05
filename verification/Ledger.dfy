/**
 The ledger rows of one account: the genesis row every account is created with, the row a
 payment appends, and the invariant the verifier checks (dense numbers, running balance).
 Amounts are integer cents; a UUID is an integer, used only for equality and order.
 */
module Ledger {
  type Uuid = int

  datatype OperationType = OpCreate | OpDeposit | OpWithdrawal

  datatype Row = Row(accountId: Uuid, no: int, amount: int, balance: int,
                     operationType: OperationType, operationId: Uuid)

  /** The zero-amount opening row; the account's own id stands in as its operation id. */
  function Create(accountId: Uuid): Row {
    Row(accountId, 1, 0, 0, OpCreate, accountId)
  }

  function Follow(previous: Row, amount: int, operationType: OperationType, operationId: Uuid): Row {
    Row(previous.accountId, previous.no + 1, amount, previous.balance + amount, operationType, operationId)
  }

  /** What the table's primary key and its ORDER BY give: one row per number, ascending, from 1. */
  ghost predicate InKeyOrder(rows: seq<Row>) {
    && (forall i :: 0 <= i < |rows| ==> 1 <= rows[i].no)
    && (forall i, j :: 0 <= i < j < |rows| ==> rows[i].no < rows[j].no)
  }

  function BalanceBefore(rows: seq<Row>, i: nat): int
    requires i <= |rows|
  {
    if i == 0 then 0 else rows[i - 1].balance
  }

  /** The documented invariant: no = no(previous) + 1 and balance = balance(previous) + amount. */
  ghost predicate ValidChain(rows: seq<Row>) {
    && (forall i :: 0 <= i < |rows| ==> rows[i].no == i + 1)
    && (forall i {:trigger BalanceBefore(rows, i)} :: 0 <= i < |rows| ==>
          rows[i].balance == BalanceBefore(rows, i) + rows[i].amount)
  }

  function Total(rows: seq<Row>): int {
    if rows == [] then 0 else Total(rows[..|rows| - 1]) + rows[|rows| - 1].amount
  }

  lemma {:induction false} TotalConcat(a: seq<Row>, b: seq<Row>)
    ensures Total(a + b) == Total(a) + Total(b)
  {
    if b == [] {
      assert a + b == a;
    } else {
      var init := b[..|b| - 1];
      assert (a + b)[..|a + b| - 1] == a + init;
      TotalConcat(a, init);
    }
  }

  /** The stored balance of every row is the sum of all amounts up to it. */
  lemma {:induction false} BalanceIsTotal(rows: seq<Row>, k: nat)
    requires ValidChain(rows) && k <= |rows|
    ensures BalanceBefore(rows, k) == Total(rows[..k])
  {
    if k > 0 {
      BalanceIsTotal(rows, k - 1);
      assert rows[..k][..k - 1] == rows[..k - 1];
    }
  }

  lemma {:induction false} SegmentTotal(rows: seq<Row>, from: nat, to: nat)
    requires ValidChain(rows) && from <= to <= |rows|
    ensures Total(rows[from..to]) == BalanceBefore(rows, to) - BalanceBefore(rows, from)
  {
    BalanceIsTotal(rows, from);
    BalanceIsTotal(rows, to);
    TotalConcat(rows[..from], rows[from..to]);
    assert rows[..to] == rows[..from] + rows[from..to];
  }

  /** `Create` and `Follow` are the only two ways to write a row, and both keep the invariant. */
  lemma {:induction false} FollowExtendsChain(rows: seq<Row>, amount: int, operationType: OperationType,
                                              operationId: Uuid)
    requires ValidChain(rows) && rows != []
    ensures ValidChain(rows + [Follow(rows[|rows| - 1], amount, operationType, operationId)])
  {
    var longer := rows + [Follow(rows[|rows| - 1], amount, operationType, operationId)];
    forall i | 0 <= i < |longer|
      ensures longer[i].no == i + 1 && longer[i].balance == BalanceBefore(longer, i) + longer[i].amount
    {
      if i < |rows| {
        assert longer[i] == rows[i] && BalanceBefore(longer, i) == BalanceBefore(rows, i);
      } else {
        assert rows[|rows| - 1].no == |rows|;
      }
    }
  }

  lemma {:induction false} ValidChainIsInKeyOrder(rows: seq<Row>)
    requires ValidChain(rows)
    ensures InKeyOrder(rows)
  {
    forall i, j | 0 <= i < j < |rows| ensures rows[i].no < rows[j].no {
      assert rows[i].no == i + 1 && rows[j].no == j + 1;
    }
  }
}
