/**
 The verification query for one account: a bounded window of rows at and after the checkpoint,
 each row judged against its predecessor, the first break and the tail of the batch.
 */
module LedgerWindow {
  import opened Wrappers
  import opened Ledger

  datatype Kind = AnchorBalance | Gap | Balance | GapBalance

  /** `l.no >= :from ORDER BY l.no`; the rows come in key order already. */
  function From(rows: seq<Row>, from: int): seq<Row> {
    if rows == [] then []
    else if rows[0].no >= from then [rows[0]] + From(rows[1..], from)
    else From(rows[1..], from)
  }

  function Limit(rows: seq<Row>, count: nat): seq<Row> {
    if |rows| <= count then rows else rows[..count]
  }

  function Window(rows: seq<Row>, anchorNo: int, windowRows: nat): seq<Row> {
    Limit(From(rows, anchorNo), windowRows)
  }

  /** A window row with its predecessor: `LAG(...)`, or the anchor where there is none. */
  datatype Chained = Chained(row: Row, prevNo: int, prevBalance: int)

  function Chain(window: seq<Row>, anchorNo: int, anchorBalance: int, i: nat): Chained
    requires i < |window|
  {
    if i == 0 then Chained(window[0], anchorNo, anchorBalance)
    else Chained(window[i], window[i - 1].no, window[i - 1].balance)
  }

  /** The CASE expression, branch by branch in its order. */
  function Flag(c: Chained, anchorNo: int, anchorBalance: int): Option<Kind> {
    if c.row.no == anchorNo && c.row.balance != anchorBalance then Some(AnchorBalance)
    else if c.row.no > anchorNo && c.row.no != c.prevNo + 1 && c.row.balance != c.prevBalance + c.row.amount
    then Some(GapBalance)
    else if c.row.no > anchorNo && c.row.no != c.prevNo + 1 then Some(Gap)
    else if c.row.no > anchorNo && c.row.balance != c.prevBalance + c.row.amount then Some(Balance)
    else None
  }

  /** The columns of `first_break`; the LEFT JOIN gives all of them or none. */
  datatype Break = Break(no: int, kind: Kind, amount: int, balance: int, prevNo: int, prevBalance: int)

  function FirstBreak(window: seq<Row>, anchorNo: int, anchorBalance: int, i: nat): Option<Break>
    requires i <= |window|
    decreases |window| - i
  {
    if i == |window| then None
    else
      var c := Chain(window, anchorNo, anchorBalance, i);
      match Flag(c, anchorNo, anchorBalance)
      case Some(kind) => Some(Break(c.row.no, kind, c.row.amount, c.row.balance, c.prevNo, c.prevBalance))
      case None => FirstBreak(window, anchorNo, anchorBalance, i + 1)
  }

  /** One row of the batch, as the scheduler receives it. */
  datatype Verification = Verification(
    accountId: Uuid, anchorNo: int, anchorBalance: int,
    batchRows: nat, batchLimit: nat, batchLastNo: int, batchLastBalance: int,
    firstBreak: Option<Break>)
  {
    function LastGoodNo(): int {
      match firstBreak case None => batchLastNo case Some(b) => b.prevNo
    }

    function LastGoodBalance(): int {
      match firstBreak case None => batchLastBalance case Some(b) => b.prevBalance
    }

    predicate ShouldCheckpoint() {
      LastGoodNo() > anchorNo
    }

    function ExpectedBalance(): Option<int> {
      match firstBreak
      case None => None
      case Some(b) =>
        if b.kind == Gap then None
        else if b.kind == AnchorBalance then Some(anchorBalance)
        else Some(b.prevBalance + b.amount)
    }
  }

  /** The query's answer for one target; an empty window has no `batch_tail` and drops out. */
  function BatchRow(accountId: Uuid, rows: seq<Row>, anchorNo: int, anchorBalance: int,
                    windowRows: nat): Option<Verification> {
    var window := Window(rows, anchorNo, windowRows);
    if window == [] then None
    else
      var tail := window[|window| - 1];
      Some(Verification(accountId, anchorNo, anchorBalance, |window|, windowRows, tail.no, tail.balance,
                        FirstBreak(window, anchorNo, anchorBalance, 0)))
  }

  // ------------------------------------------------------------------ the simple form

  /** What a check of a ledger can say: clean through a row, or broken at one. */
  datatype Outcome =
    | Clean(no: int, balance: int)
    | Broken(no: int, kind: Kind, expected: Option<int>, actual: int, prevNo: int, prevBalance: int)

  /** Judge the row after (no, balance): the numbering may fail, the running total, or both. */
  function Judge(no: int, balance: int, row: Row): Option<Outcome> {
    var numbered := row.no == no + 1;
    var summed := row.balance == balance + row.amount;
    if numbered && summed then None
    else
      var kind := if numbered then Balance else if summed then Gap else GapBalance;
      var expected := if summed then None else Some(balance + row.amount);
      Some(Broken(row.no, kind, expected, row.balance, no, balance))
  }

  /** A one-pass check of a whole sequence, starting after (no, balance). */
  function Scan(no: int, balance: int, rows: seq<Row>): Outcome
    decreases |rows|
  {
    if rows == [] then Clean(no, balance)
    else
      match Judge(no, balance, rows[0])
      case Some(broken) => broken
      case None => Scan(rows[0].no, rows[0].balance, rows[1..])
  }

  /** The same pass started at a checkpoint whose own row may be in front of the sequence. */
  function AnchoredScan(anchorNo: int, anchorBalance: int, rows: seq<Row>): Outcome {
    if rows != [] && rows[0].no == anchorNo then
      if rows[0].balance != anchorBalance
      then Broken(anchorNo, AnchorBalance, Some(anchorBalance), rows[0].balance, anchorNo, anchorBalance)
      else Scan(anchorNo, anchorBalance, rows[1..])
    else Scan(anchorNo, anchorBalance, rows)
  }

  /** What the scheduler reads off a verification. */
  function Verdict(v: Verification): Outcome {
    match v.firstBreak
    case None => Clean(v.LastGoodNo(), v.LastGoodBalance())
    case Some(b) => Broken(b.no, b.kind, v.ExpectedBalance(), b.balance, v.LastGoodNo(), v.LastGoodBalance())
  }

  // ------------------------------------------------------------------ the two agree

  lemma {:induction false} FromAll(rows: seq<Row>, from: int)
    requires forall i :: 0 <= i < |rows| ==> rows[i].no >= from
    ensures From(rows, from) == rows
  {
    if rows != [] {
      FromAll(rows[1..], from);
      assert [rows[0]] + rows[1..] == rows;
    }
  }

  /** In key order, the rows from a number on are a suffix. */
  lemma {:induction false} FromIsSuffix(rows: seq<Row>, from: int) returns (k: nat)
    requires InKeyOrder(rows)
    ensures k <= |rows| && From(rows, from) == rows[k..]
    ensures forall i :: 0 <= i < k ==> rows[i].no < from
    ensures forall i :: k <= i < |rows| ==> rows[i].no >= from
  {
    if rows == [] || rows[0].no >= from {
      k := 0;
      FromAll(rows, from);
    } else {
      var rest := FromIsSuffix(rows[1..], from);
      k := rest + 1;
      assert rows[1..][rest..] == rows[k..];
    }
  }

  lemma {:induction false} WindowIsSlice(rows: seq<Row>, anchorNo: int, windowRows: nat) returns (k: nat, end: nat)
    requires InKeyOrder(rows)
    ensures k <= end <= |rows| && Window(rows, anchorNo, windowRows) == rows[k..end]
    ensures end == if |rows| - k <= windowRows then |rows| else k + windowRows
    ensures forall i :: 0 <= i < k ==> rows[i].no < anchorNo
    ensures forall i :: k <= i < |rows| ==> rows[i].no >= anchorNo
    ensures InKeyOrder(Window(rows, anchorNo, windowRows))
  {
    k := FromIsSuffix(rows, anchorNo);
    end := if |rows| - k <= windowRows then |rows| else k + windowRows;
    assert Window(rows, anchorNo, windowRows) == rows[k..end];
  }

  /** From index i on, the flagged window is a scan that starts after row i - 1. */
  lemma {:induction false} FirstBreakIsScan(window: seq<Row>, anchorNo: int, anchorBalance: int, i: nat)
    requires InKeyOrder(window) && i <= |window|
    requires forall j :: 0 <= j < |window| ==> window[j].no >= anchorNo
    requires forall j :: i <= j < |window| ==> window[j].no > anchorNo
    ensures
      var no := if i == 0 then anchorNo else window[i - 1].no;
      var balance := if i == 0 then anchorBalance else window[i - 1].balance;
      var tailNo := if |window| == 0 then anchorNo else window[|window| - 1].no;
      var tailBalance := if |window| == 0 then anchorBalance else window[|window| - 1].balance;
      Scan(no, balance, window[i..]) ==
      match FirstBreak(window, anchorNo, anchorBalance, i)
      case None => Clean(tailNo, tailBalance)
      case Some(b) =>
        var expected := if b.kind == Gap then None else Some(b.prevBalance + b.amount);
        Broken(b.no, b.kind, expected, b.balance, b.prevNo, b.prevBalance)
    decreases |window| - i
  {
    if i < |window| {
      FirstBreakIsScan(window, anchorNo, anchorBalance, i + 1);
      assert window[i..][0] == window[i] && window[i..][1..] == window[i + 1..];
    }
  }

  lemma {:induction false} FirstBreakIsBeyondAnchor(window: seq<Row>, anchorNo: int, anchorBalance: int, i: nat)
    requires InKeyOrder(window) && i <= |window|
    requires forall j :: 0 <= j < |window| ==> window[j].no >= anchorNo
    requires forall j :: i <= j < |window| ==> window[j].no > anchorNo
    ensures match FirstBreak(window, anchorNo, anchorBalance, i)
            case None => true
            case Some(b) => b.kind != AnchorBalance && b.no > b.prevNo >= anchorNo
    decreases |window| - i
  {
    if i < |window| {
      FirstBreakIsBeyondAnchor(window, anchorNo, anchorBalance, i + 1);
    }
  }

  /** A window of two or more rows reaches past the anchor whenever the ledger does. */
  lemma {:induction false} BatchRowPassesAnchor(accountId: Uuid, rows: seq<Row>, anchorNo: int, anchorBalance: int,
                                                windowRows: nat, newer: nat)
    requires InKeyOrder(rows) && windowRows >= 2
    requires newer < |rows| && rows[newer].no > anchorNo
    ensures
      var v := BatchRow(accountId, rows, anchorNo, anchorBalance, windowRows);
      && v.Some? && v.value.anchorNo == anchorNo && v.value.anchorBalance == anchorBalance
      && v.value.batchLastNo > anchorNo
      && match v.value.firstBreak
         case None => true
         case Some(b) => if b.kind == AnchorBalance then b.no == b.prevNo == anchorNo else b.no > b.prevNo >= anchorNo
  {
    var k, end := WindowIsSlice(rows, anchorNo, windowRows);
    var window := Window(rows, anchorNo, windowRows);
    assert newer >= k && window != [] && window[0] == rows[k];
    assert window[|window| - 1] == rows[end - 1];
    if window[0].no == anchorNo {
      assert newer > k && end >= k + 2;
      FirstBreakIsBeyondAnchor(window, anchorNo, anchorBalance, 1);
    } else {
      FirstBreakIsBeyondAnchor(window, anchorNo, anchorBalance, 0);
    }
  }

  lemma {:induction false} FlagsAreScan(v: Verification, window: seq<Row>)
    requires InKeyOrder(window) && window != [] && forall i :: 0 <= i < |window| ==> window[i].no >= v.anchorNo
    requires v.batchLastNo == window[|window| - 1].no && v.batchLastBalance == window[|window| - 1].balance
    requires v.firstBreak == FirstBreak(window, v.anchorNo, v.anchorBalance, 0)
    ensures Verdict(v) == AnchoredScan(v.anchorNo, v.anchorBalance, window)
  {
    var first := if window[0].no == v.anchorNo then 1 else 0;
    FirstBreakIsScan(window, v.anchorNo, v.anchorBalance, first);
    FirstBreakIsBeyondAnchor(window, v.anchorNo, v.anchorBalance, first);
    assert window[0..] == window;
  }

  /** The window query equals the one-pass scan of its window, break for break. */
  lemma {:induction false} QueryIsScan(accountId: Uuid, rows: seq<Row>, anchorNo: int, anchorBalance: int,
                                       windowRows: nat)
    requires InKeyOrder(rows)
    ensures
      match BatchRow(accountId, rows, anchorNo, anchorBalance, windowRows)
      case None => Window(rows, anchorNo, windowRows) == []
      case Some(v) => Verdict(v) == AnchoredScan(anchorNo, anchorBalance, Window(rows, anchorNo, windowRows))
  {
    var k, end := WindowIsSlice(rows, anchorNo, windowRows);
    var window := Window(rows, anchorNo, windowRows);
    if window != [] {
      assert forall i :: 0 <= i < |window| ==> window[i] == rows[k + i];
      FlagsAreScan(BatchRow(accountId, rows, anchorNo, anchorBalance, windowRows).value, window);
    }
  }

  // ------------------------------------------------------------------ what a scan means

  lemma {:induction false} ScanSplit(no: int, balance: int, first: seq<Row>, second: seq<Row>)
    ensures Scan(no, balance, first + second) ==
            match Scan(no, balance, first)
            case Clean(n, b) => Scan(n, b, second)
            case broken => broken
    decreases |first|
  {
    if first == [] {
      assert first + second == second;
    } else {
      assert (first + second)[0] == first[0] && (first + second)[1..] == first[1..] + second;
      if Judge(no, balance, first[0]).None? {
        ScanSplit(first[0].no, first[0].balance, first[1..], second);
      }
    }
  }

  /** A clean verdict counts and sums the rows it covers. */
  lemma {:induction false} CleanCountsAndSums(no: int, balance: int, rows: seq<Row>)
    requires Scan(no, balance, rows).Clean?
    ensures Scan(no, balance, rows) == Clean(no + |rows|, balance + Total(rows))
    decreases |rows|
  {
    if rows != [] {
      CleanCountsAndSums(rows[0].no, rows[0].balance, rows[1..]);
      TotalConcat([rows[0]], rows[1..]);
      assert [rows[0]] + rows[1..] == rows;
      assert Total([rows[0]]) == rows[0].amount by {
        assert [rows[0]][..0] == [];
      }
    }
  }

  /** A broken verdict does so for the rows before the break, and the break is the very next row. */
  lemma {:induction false} BrokenCountsAndSums(no: int, balance: int, rows: seq<Row>) returns (good: nat)
    requires Scan(no, balance, rows).Broken?
    ensures good < |rows| && Scan(no, balance, rows[..good]) == Clean(no + good, balance + Total(rows[..good]))
    ensures Judge(no + good, balance + Total(rows[..good]), rows[good]) == Some(Scan(no, balance, rows))
    decreases |rows|
  {
    if Judge(no, balance, rows[0]).Some? {
      good := 0;
    } else {
      var rest := BrokenCountsAndSums(rows[0].no, rows[0].balance, rows[1..]);
      good := rest + 1;
      assert rows[..good][0] == rows[0] && rows[..good][1..] == rows[1..][..rest];
      CleanCountsAndSums(no, balance, rows[..good]);
    }
  }

  /** The full scan is clean exactly on the ledgers that satisfy the documented invariant. */
  lemma {:induction false} CleanScanIffValidChain(rows: seq<Row>)
    ensures Scan(0, 0, rows).Clean? <==> ValidChain(rows)
  {
    if rows != [] {
      var init, last := rows[..|rows| - 1], rows[|rows| - 1];
      CleanScanIffValidChain(init);
      ScanSplit(0, 0, init, [last]);
      assert init + [last] == rows;
      assert forall i :: 0 <= i < |init| ==> init[i] == rows[i] && BalanceBefore(init, i) == BalanceBefore(rows, i);
      assert ValidChain(rows) ==> ValidChain(init);
      if ValidChain(init) {
        CleanCountsAndSums(0, 0, init);
        BalanceIsTotal(init, |init|);
        assert init[..|init|] == init;
        assert BalanceBefore(rows, |init|) == BalanceBefore(init, |init|);
        assert Scan(0, 0, init) == Clean(|init|, BalanceBefore(rows, |init|));
        assert Scan(0, 0, rows).Clean? <==> Judge(|init|, BalanceBefore(rows, |init|), last).None?;
      }
    }
  }
}
