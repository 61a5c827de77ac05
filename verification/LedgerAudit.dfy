/**
 Why a check that starts at a checkpoint can replace a check of the whole ledger, exactly when it
 cannot, and what each kind of break says about rows that were deleted.
 */
module LedgerAudit {
  import opened Wrappers
  import opened Ledger
  import opened LedgerWindow

  function UpTo(rows: seq<Row>, no: int): seq<Row> {
    if rows == [] then []
    else if rows[0].no <= no then [rows[0]] + UpTo(rows[1..], no)
    else UpTo(rows[1..], no)
  }

  /** A checkpoint tells the truth about a ledger: the full scan is clean through it and ends there. */
  ghost predicate Truthful(rows: seq<Row>, no: int, balance: int) {
    Scan(0, 0, UpTo(rows, no)) == Clean(no, balance)
  }

  lemma {:induction false} UpToNone(rows: seq<Row>, no: int)
    requires forall i :: 0 <= i < |rows| ==> rows[i].no > no
    ensures UpTo(rows, no) == []
  {
    if rows != [] {
      UpToNone(rows[1..], no);
    }
  }

  /** In key order, the rows up to a number are a prefix, and the rest is what comes after it. */
  lemma {:induction false} UpToIsPrefix(rows: seq<Row>, no: int) returns (k: nat)
    requires InKeyOrder(rows)
    ensures k <= |rows| && UpTo(rows, no) == rows[..k]
    ensures forall i :: 0 <= i < k ==> rows[i].no <= no
    ensures forall i :: k <= i < |rows| ==> rows[i].no > no
  {
    if rows == [] || rows[0].no > no {
      k := 0;
      UpToNone(rows, no);
    } else {
      var rest := UpToIsPrefix(rows[1..], no);
      k := rest + 1;
      assert [rows[0]] + rows[1..][..rest] == rows[..k];
    }
  }

  lemma {:induction false} CleanEndsAtLastRow(no: int, balance: int, rows: seq<Row>)
    requires rows != [] && Scan(no, balance, rows).Clean?
    ensures Scan(no, balance, rows) == Clean(rows[|rows| - 1].no, rows[|rows| - 1].balance)
    decreases |rows|
  {
    if |rows| > 1 {
      CleanEndsAtLastRow(rows[0].no, rows[0].balance, rows[1..]);
    }
  }

  lemma {:induction false} BrokenIsARow(no: int, balance: int, rows: seq<Row>) returns (i: nat)
    requires Scan(no, balance, rows).Broken?
    ensures i < |rows| && Scan(no, balance, rows).no == rows[i].no
    ensures Scan(no, balance, rows).kind != AnchorBalance && Scan(no, balance, rows).prevNo >= no
  {
    i := BrokenCountsAndSums(no, balance, rows);
  }

  lemma {:induction false} CutIsUnique(rows: seq<Row>, cut: int, a: nat, b: nat)
    requires a <= |rows| && b <= |rows|
    requires (forall i :: 0 <= i < a ==> rows[i].no < cut) && (forall i :: a <= i < |rows| ==> rows[i].no >= cut)
    requires (forall i :: 0 <= i < b ==> rows[i].no < cut) && (forall i :: b <= i < |rows| ==> rows[i].no >= cut)
    ensures a == b
  {
    assert a < |rows| ==> rows[a].no >= cut;
    assert b < |rows| ==> rows[b].no >= cut;
  }

  /** A prefix that scans clean is all there is up to the number it ends at. */
  lemma {:induction false} CleanPrefixIsTruthful(rows: seq<Row>, end: nat)
    requires InKeyOrder(rows) && end <= |rows| && Scan(0, 0, rows[..end]).Clean?
    ensures
      var clean := Scan(0, 0, rows[..end]);
      UpTo(rows, clean.no) == rows[..end] && Truthful(rows, clean.no, clean.balance)
  {
    var clean := Scan(0, 0, rows[..end]);
    var k := UpToIsPrefix(rows, clean.no);
    if end > 0 {
      CleanEndsAtLastRow(0, 0, rows[..end]);
      assert clean.no == rows[end - 1].no;
    }
    assert forall i :: end <= i < |rows| ==> rows[i].no > clean.no;
    assert forall i :: 0 <= i < end ==> rows[i].no <= rows[end - 1].no;
    CutIsUnique(rows, clean.no + 1, k, end);
  }

  /** What the rows at the checkpoint contribute: nothing, or the checkpoint's own row. */
  lemma {:induction false} SplitAtAnchor(rows: seq<Row>, anchorNo: int) returns (j: nat, k: nat)
    requires InKeyOrder(rows)
    ensures j <= k <= j + 1 && k <= |rows|
    ensures From(rows, anchorNo) == rows[j..] && UpTo(rows, anchorNo) == rows[..k]
    ensures k == j + 1 ==> rows[j].no == anchorNo
    ensures forall i :: 0 <= i < j ==> rows[i].no < anchorNo
    ensures forall i :: k <= i < |rows| ==> rows[i].no > anchorNo
  {
    j := FromIsSuffix(rows, anchorNo);
    k := UpToIsPrefix(rows, anchorNo);
    assert k < |rows| ==> rows[k].no > anchorNo;
    assert j <= k;
    assert j + 1 < |rows| ==> rows[j].no < rows[j + 1].no;
  }

  lemma {:induction false} AnchoredScanOfSlice(rows: seq<Row>, anchorNo: int, anchorBalance: int, j: nat, k: nat,
                                               end: nat)
    requires j <= k <= j + 1 && k <= end <= |rows|
    requires k == j + 1 ==> rows[j].no == anchorNo
    requires forall i :: k <= i < |rows| ==> rows[i].no > anchorNo
    ensures AnchoredScan(anchorNo, anchorBalance, rows[j..end]) ==
            if j < k && rows[j].balance != anchorBalance
            then Broken(anchorNo, AnchorBalance, Some(anchorBalance), rows[j].balance, anchorNo, anchorBalance)
            else Scan(anchorNo, anchorBalance, rows[k..end])
  {
    if j < k {
      assert rows[j..end][1..] == rows[k..end];
    }
  }

  /** Two scans of the same rows from different starting points disagree, unless a row before settles it. */
  lemma {:induction false} DifferentStartsDisagree(m: int, b: int, anchorNo: int, anchorBalance: int, after: seq<Row>)
    requires m < anchorNo && forall i :: 0 <= i < |after| ==> after[i].no > anchorNo
    ensures Scan(m, b, after) != Scan(anchorNo, anchorBalance, after)
  {
    if after != [] {
      assert Judge(m, b, after[0]).Some?;
      if Judge(anchorNo, anchorBalance, after[0]).None? && Scan(anchorNo, anchorBalance, after).Broken? {
        var i := BrokenIsARow(after[0].no, after[0].balance, after[1..]);
      }
    }
  }

  /** The check from a checkpoint, with the rows up to it and the rows after it told apart. */
  ghost function FromAnchor(covered: seq<Row>, after: seq<Row>, anchorNo: int, anchorBalance: int): Outcome {
    if covered != [] && covered[|covered| - 1].no == anchorNo && covered[|covered| - 1].balance != anchorBalance
    then Broken(anchorNo, AnchorBalance, Some(anchorBalance), covered[|covered| - 1].balance, anchorNo, anchorBalance)
    else Scan(anchorNo, anchorBalance, after)
  }

  lemma {:induction false} ScanFromAnchor(rows: seq<Row>, anchorNo: int, anchorBalance: int, j: nat, k: nat)
    requires j <= k <= j + 1 && k <= |rows|
    requires k == j + 1 ==> rows[j].no == anchorNo
    requires forall i :: 0 <= i < j ==> rows[i].no < anchorNo
    requires forall i :: k <= i < |rows| ==> rows[i].no > anchorNo
    ensures AnchoredScan(anchorNo, anchorBalance, rows[j..])
        == FromAnchor(rows[..k], rows[k..], anchorNo, anchorBalance)
  {
    AnchoredScanOfSlice(rows, anchorNo, anchorBalance, j, k, |rows|);
    assert rows[j..] == rows[j..|rows|] && rows[k..] == rows[k..|rows|];
  }

  lemma {:induction false} BrokenBelowAnchor(covered: seq<Row>, after: seq<Row>, anchorNo: int, anchorBalance: int)
    requires forall i :: 0 <= i < |covered| ==> covered[i].no <= anchorNo
    requires forall i :: 0 <= i < |after| ==> after[i].no > anchorNo
    requires Scan(0, 0, covered).Broken?
    ensures FromAnchor(covered, after, anchorNo, anchorBalance) != Scan(0, 0, covered)
  {
    var i := BrokenIsARow(0, 0, covered);
    if Scan(anchorNo, anchorBalance, after).Broken? {
      var j := BrokenIsARow(anchorNo, anchorBalance, after);
    }
  }

  lemma {:induction false} CleanBelowAnchor(covered: seq<Row>, after: seq<Row>, anchorNo: int, anchorBalance: int,
                                            clean: Outcome)
    requires anchorNo >= 1 && clean == Scan(0, 0, covered) && clean.Clean?
    requires forall i :: 0 <= i < |covered| ==> covered[i].no <= anchorNo
    requires forall i :: 0 <= i < |after| ==> after[i].no > anchorNo
    ensures FromAnchor(covered, after, anchorNo, anchorBalance) == Scan(clean.no, clean.balance, after)
            <==> clean == Clean(anchorNo, anchorBalance)
  {
    if covered != [] {
      CleanEndsAtLastRow(0, 0, covered);
    }
    if clean.no < anchorNo {
      DifferentStartsDisagree(clean.no, clean.balance, anchorNo, anchorBalance, after);
    } else if Scan(clean.no, clean.balance, after).Broken? {
      var i := BrokenIsARow(clean.no, clean.balance, after);
    }
  }

  /**
   The check from a checkpoint gives the same outcome as the check from row 1 if and only if the
   checkpoint is truthful. (A row below the checkpoint that is altered or deleted later is the
   failing family: the incremental check does not look there again.)
   */
  lemma {:induction false} IncrementalAgreesIffTruthful(rows: seq<Row>, anchorNo: int, anchorBalance: int)
    requires InKeyOrder(rows) && anchorNo >= 1
    ensures AnchoredScan(anchorNo, anchorBalance, From(rows, anchorNo)) == Scan(0, 0, rows)
            <==> Truthful(rows, anchorNo, anchorBalance)
  {
    var j, k := SplitAtAnchor(rows, anchorNo);
    var covered, after := rows[..k], rows[k..];
    assert covered + after == rows;
    ScanFromAnchor(rows, anchorNo, anchorBalance, j, k);
    ScanSplit(0, 0, covered, after);
    assert forall i :: 0 <= i < k ==> rows[i].no <= anchorNo;
    if Scan(0, 0, covered).Broken? {
      BrokenBelowAnchor(covered, after, anchorNo, anchorBalance);
    } else {
      CleanBelowAnchor(covered, after, anchorNo, anchorBalance, Scan(0, 0, covered));
    }
  }

  /** `anchor_balance` means exactly: the checkpointed row is there with a balance the checkpoint does not have. */
  lemma {:induction false} AnchorBreakIffAltered(rows: seq<Row>, windowRows: nat, v: Verification)
    requires InKeyOrder(rows) && BatchRow(v.accountId, rows, v.anchorNo, v.anchorBalance, windowRows) == Some(v)
    ensures v.firstBreak.Some? && v.firstBreak.value.kind == AnchorBalance <==>
              exists i :: 0 <= i < |rows| && rows[i].no == v.anchorNo && rows[i].balance != v.anchorBalance
  {
    var after, good := LastGoodCountsAndSums(rows, windowRows, v);
    var j, k := SplitAtAnchor(rows, v.anchorNo);
    if i :| 0 <= i < |rows| && rows[i].no == v.anchorNo && rows[i].balance != v.anchorBalance {
      assert j == i;
    }
  }

  /**
   The last good row of any verdict counts and sums: its number is the anchor's plus the good rows after
   the anchor, its balance the anchor's plus their amounts, and a later break is at the very next row.
   */
  lemma {:induction false} LastGoodCountsAndSums(rows: seq<Row>, windowRows: nat, v: Verification)
    returns (after: seq<Row>, good: nat)
    requires InKeyOrder(rows) && BatchRow(v.accountId, rows, v.anchorNo, v.anchorBalance, windowRows) == Some(v)
    ensures var window := Window(rows, v.anchorNo, windowRows);
            window != [] && after == if window[0].no == v.anchorNo then window[1..] else window
    ensures v.batchRows == |Window(rows, v.anchorNo, windowRows)| <= v.batchLimit == windowRows
    ensures good <= |after|
    ensures v.LastGoodNo() == v.anchorNo + good && v.LastGoodBalance() == v.anchorBalance + Total(after[..good])
    ensures v.firstBreak.None? ==> good == |after|
    ensures v.firstBreak.Some? && v.firstBreak.value.kind == AnchorBalance ==>
              good == 0 && Window(rows, v.anchorNo, windowRows)[0].no == v.anchorNo
              && Window(rows, v.anchorNo, windowRows)[0].balance != v.anchorBalance
    ensures v.firstBreak.Some? && v.firstBreak.value.kind != AnchorBalance ==>
              good < |after| && after[good].no == v.firstBreak.value.no
              && Judge(v.LastGoodNo(), v.LastGoodBalance(), after[good]) == Some(Verdict(v))
    ensures var window := Window(rows, v.anchorNo, windowRows);
            window[0].no == v.anchorNo && window[0].balance != v.anchorBalance ==>
              v.firstBreak.Some? && v.firstBreak.value.kind == AnchorBalance
  {
    QueryIsScan(v.accountId, rows, v.anchorNo, v.anchorBalance, windowRows);
    var window := Window(rows, v.anchorNo, windowRows);
    after := if window[0].no == v.anchorNo then window[1..] else window;
    if window[0].no == v.anchorNo && window[0].balance != v.anchorBalance {
      good := 0;
    } else if Scan(v.anchorNo, v.anchorBalance, after).Clean? {
      good := |after|;
      CleanCountsAndSums(v.anchorNo, v.anchorBalance, after);
      assert after[..good] == after;
    } else {
      good := BrokenCountsAndSums(v.anchorNo, v.anchorBalance, after);
    }
  }

  /** From a truthful checkpoint, a window's verdict is the full scan of the rows through its end. */
  lemma {:induction false} VerdictIsPrefixScan(rows: seq<Row>, windowRows: nat, v: Verification) returns (end: nat)
    requires InKeyOrder(rows) && Truthful(rows, v.anchorNo, v.anchorBalance)
    requires BatchRow(v.accountId, rows, v.anchorNo, v.anchorBalance, windowRows) == Some(v)
    ensures 0 < end <= |rows|
    ensures Verdict(v) == Scan(0, 0, rows[..end])
  {
    var anchorNo, anchorBalance := v.anchorNo, v.anchorBalance;
    QueryIsScan(v.accountId, rows, anchorNo, anchorBalance, windowRows);
    var j, k;
    j, end := WindowIsSlice(rows, anchorNo, windowRows);
    var j';
    j', k := SplitAtAnchor(rows, anchorNo);
    assert forall i :: j' <= i < |rows| ==> rows[i].no >= anchorNo;
    CutIsUnique(rows, anchorNo, j, j');
    ResumedScan(rows, anchorNo, anchorBalance, j, k, end);
  }

  lemma {:induction false} ResumedScan(rows: seq<Row>, anchorNo: int, anchorBalance: int, j: nat, k: nat, end: nat)
    requires j <= k <= j + 1 && k <= end <= |rows|
    requires k == j + 1 ==> rows[j].no == anchorNo
    requires forall i :: k <= i < |rows| ==> rows[i].no > anchorNo
    requires Scan(0, 0, rows[..k]) == Clean(anchorNo, anchorBalance)
    ensures AnchoredScan(anchorNo, anchorBalance, rows[j..end]) == Scan(0, 0, rows[..end])
  {
    AnchoredScanOfSlice(rows, anchorNo, anchorBalance, j, k, end);
    ScanSplit(0, 0, rows[..k], rows[k..end]);
    assert rows[..k] + rows[k..end] == rows[..end];
    if j < k {
      CleanEndsAtLastRow(0, 0, rows[..k]);
    }
  }

  lemma {:induction false} PrefixVerdictCarriesForward(rows: seq<Row>, end: nat, v: Verification)
    requires InKeyOrder(rows) && end <= |rows| && Verdict(v) == Scan(0, 0, rows[..end])
    ensures Truthful(rows, v.LastGoodNo(), v.LastGoodBalance())
    ensures v.firstBreak.Some? ==> Verdict(v) == Scan(0, 0, rows)
  {
    var prefix := rows[..end];
    if v.firstBreak.None? {
      CleanPrefixIsTruthful(rows, end);
    } else {
      var good := BrokenCountsAndSums(0, 0, prefix);
      assert prefix[..good] == rows[..good];
      CleanPrefixIsTruthful(rows, good);
      ScanSplit(0, 0, prefix, rows[end..]);
      assert prefix + rows[end..] == rows;
    }
  }

  /**
   One bounded run from a truthful checkpoint: the checkpoint it leaves is truthful again, and a
   break it reports is the full scan's first break, field for field.
   */
  lemma {:induction false} CheckpointCarriesForward(rows: seq<Row>, windowRows: nat, v: Verification)
    requires InKeyOrder(rows) && Truthful(rows, v.anchorNo, v.anchorBalance)
    requires BatchRow(v.accountId, rows, v.anchorNo, v.anchorBalance, windowRows) == Some(v)
    ensures Truthful(rows, v.LastGoodNo(), v.LastGoodBalance())
    ensures v.firstBreak.Some? ==> Verdict(v) == Scan(0, 0, rows)
  {
    var end := VerdictIsPrefixScan(rows, windowRows, v);
    PrefixVerdictCarriesForward(rows, end, v);
  }

  /** A truthful checkpoint never reaches the first break. */
  lemma {:induction false} TruthfulStopsBeforeBreak(rows: seq<Row>, no: int, balance: int)
    requires InKeyOrder(rows) && Truthful(rows, no, balance) && Scan(0, 0, rows).Broken?
    ensures no < Scan(0, 0, rows).no
  {
    var k := UpToIsPrefix(rows, no);
    ScanSplit(0, 0, rows[..k], rows[k..]);
    assert rows[..k] + rows[k..] == rows;
    var i := BrokenIsARow(no, balance, rows[k..]);
    assert rows[k..][i] == rows[k + i];
  }

  /** Rows appended behind the last one change neither a truthful checkpoint nor a first break. */
  lemma {:induction false} AppendsPreserve(rows: seq<Row>, more: seq<Row>)
    requires InKeyOrder(rows + more)
    ensures forall no, balance :: Truthful(rows, no, balance) ==> Truthful(rows + more, no, balance)
    ensures Scan(0, 0, rows).Broken? ==> Scan(0, 0, rows + more) == Scan(0, 0, rows)
  {
    assert InKeyOrder(rows) by {
      assert forall i :: 0 <= i < |rows| ==> rows[i] == (rows + more)[i];
    }
    ScanSplit(0, 0, rows, more);
    forall no, balance | Truthful(rows, no, balance) ensures Truthful(rows + more, no, balance) {
      var k := UpToIsPrefix(rows, no);
      assert (rows + more)[..k] == rows[..k];
      CleanPrefixIsTruthful(rows + more, k);
    }
  }

  // ------------------------------------------------------------------ deletions

  /** What is left of a ledger when only the rows with these numbers are kept. */
  function Survivors(rows: seq<Row>, keep: set<int>): seq<Row> {
    if rows == [] then []
    else if rows[0].no in keep then [rows[0]] + Survivors(rows[1..], keep)
    else Survivors(rows[1..], keep)
  }

  lemma {:induction false} SurvivorsConcat(a: seq<Row>, b: seq<Row>, keep: set<int>)
    ensures Survivors(a + b, keep) == Survivors(a, keep) + Survivors(b, keep)
  {
    if a == [] {
      assert a + b == b;
    } else {
      var whole, head := a + b, if a[0].no in keep then [a[0]] else [];
      assert whole[0] == a[0] && whole[1..] == a[1..] + b;
      SurvivorsConcat(a[1..], b, keep);
      assert head + (Survivors(a[1..], keep) + Survivors(b, keep))
          == head + Survivors(a[1..], keep) + Survivors(b, keep);
    }
  }

  lemma {:induction false} SurvivorsAllOrNone(rows: seq<Row>, keep: set<int>)
    ensures (forall i :: 0 <= i < |rows| ==> rows[i].no in keep) ==> Survivors(rows, keep) == rows
    ensures (forall i :: 0 <= i < |rows| ==> rows[i].no !in keep) ==> Survivors(rows, keep) == []
  {
    if rows != [] {
      SurvivorsAllOrNone(rows[1..], keep);
      assert [rows[0]] + rows[1..] == rows;
    }
  }

  lemma {:induction false} PrefixOfValidChain(chain: seq<Row>, m: nat)
    requires ValidChain(chain) && m <= |chain|
    ensures Scan(0, 0, chain[..m]) == Clean(m, BalanceBefore(chain, m))
  {
    var prefix := chain[..m];
    assert forall i :: 0 <= i < m ==> prefix[i] == chain[i] && BalanceBefore(prefix, i) == BalanceBefore(chain, i);
    CleanScanIffValidChain(prefix);
    CleanCountsAndSums(0, 0, prefix);
    BalanceIsTotal(chain, m);
  }

  /** What rows gap .. survivor - 1 of a chain summed to. */
  function Missing(chain: seq<Row>, gap: int, survivor: int): int
    requires 1 <= gap < survivor <= |chain|
  {
    Total(chain[gap - 1..survivor - 1])
  }

  /** The verdict on a hole at gap .. survivor - 1, in terms of the chain as it was. */
  function HoleVerdict(chain: seq<Row>, gap: int, survivor: int): Outcome
    requires 1 <= gap < survivor <= |chain|
  {
    var missing, actual := Missing(chain, gap, survivor), chain[survivor - 1].balance;
    var kind := if missing == 0 then Gap else GapBalance;
    var expected := if missing == 0 then None else Some(actual - missing);
    Broken(survivor, kind, expected, actual, gap - 1, BalanceBefore(chain, gap - 1))
  }

  lemma {:induction false} SurvivorsAroundHole(head: seq<Row>, hole: seq<Row>, row: Row, tail: seq<Row>, keep: set<int>)
    requires forall i :: 0 <= i < |head| ==> head[i].no in keep
    requires forall i :: 0 <= i < |hole| ==> hole[i].no !in keep
    requires row.no in keep
    ensures Survivors(head + (hole + ([row] + tail)), keep) == head + ([row] + Survivors(tail, keep))
  {
    SurvivorsConcat(head, hole + ([row] + tail), keep);
    SurvivorsConcat(hole, [row] + tail, keep);
    SurvivorsConcat([row], tail, keep);
    SurvivorsAllOrNone(head, keep);
    SurvivorsAllOrNone(hole, keep);
    SurvivorsAllOrNone([row], keep);
  }

  lemma {:induction false} JudgeAfterHole(chain: seq<Row>, gap: int, survivor: int)
    requires ValidChain(chain) && 1 <= gap < survivor <= |chain|
    ensures Judge(gap - 1, BalanceBefore(chain, gap - 1), chain[survivor - 1])
        == Some(HoleVerdict(chain, gap, survivor))
  {
    SegmentTotal(chain, gap - 1, survivor - 1);
    assert chain[survivor - 1].no == survivor;
  }

  /**
   Rows gap .. survivor - 1 of a valid chain are gone and everything before them is there: the break
   is at the survivor, it is a plain gap exactly when the missing amounts cancel out, and otherwise
   actual minus expected is what the missing rows summed to.
   */
  lemma {:induction false} DeletionClassified(chain: seq<Row>, keep: set<int>, gap: int, survivor: int)
    requires ValidChain(chain) && 1 <= gap < survivor <= |chain|
    requires forall no :: 1 <= no < gap ==> no in keep
    requires forall no :: gap <= no < survivor ==> no !in keep
    requires survivor in keep
    ensures Scan(0, 0, Survivors(chain, keep)) == HoleVerdict(chain, gap, survivor)
  {
    var head, hole, row, tail := chain[..gap - 1], chain[gap - 1..survivor - 1], chain[survivor - 1], chain[survivor..];
    assert chain == head + (hole + ([row] + tail));
    SurvivorsAroundHole(head, hole, row, tail, keep);
    ScanSplit(0, 0, head, [row] + Survivors(tail, keep));
    PrefixOfValidChain(chain, gap - 1);
    JudgeAfterHole(chain, gap, survivor);
  }

  /** The first gap begins after row m, and the first survivor behind it is row s + 1, if there is one. */
  lemma {:induction false} FirstGap(keep: set<int>, n: nat) returns (m: nat, s: nat)
    ensures m <= s <= n
    ensures forall no :: 1 <= no <= m ==> no in keep
    ensures forall no :: m < no <= s ==> no !in keep
    ensures s < n ==> m < s && s + 1 in keep
  {
    m := 0;
    while m < n && m + 1 in keep
      invariant m <= n && forall no :: 1 <= no <= m ==> no in keep
    {
      m := m + 1;
    }
    s := m;
    while s < n && s + 1 !in keep
      invariant m <= s <= n && forall no :: m < no <= s ==> no !in keep
    {
      s := s + 1;
    }
  }

  lemma {:induction false} SurvivorsOfTruncation(chain: seq<Row>, keep: set<int>, m: nat)
    requires ValidChain(chain) && m <= |chain|
    requires forall no :: 1 <= no <= m ==> no in keep
    requires forall no :: m < no <= |chain| ==> no !in keep
    ensures Survivors(chain, keep) == chain[..m]
  {
    assert chain == chain[..m] + chain[m..];
    SurvivorsConcat(chain[..m], chain[m..], keep);
    SurvivorsAllOrNone(chain[..m], keep);
    SurvivorsAllOrNone(chain[m..], keep);
  }

  /** Deleting rows goes unnoticed if and only if what is left is the chain cut short at its end. */
  lemma {:induction false} DeletionUnnoticedIffTruncation(chain: seq<Row>, keep: set<int>)
    requires ValidChain(chain)
    ensures Scan(0, 0, Survivors(chain, keep)).Clean?
            <==> exists m :: 0 <= m <= |chain| && Survivors(chain, keep) == chain[..m]
  {
    var left := Survivors(chain, keep);
    var m, s := FirstGap(keep, |chain|);
    if s == |chain| {
      SurvivorsOfTruncation(chain, keep, m);
      PrefixOfValidChain(chain, m);
    } else {
      DeletionClassified(chain, keep, m + 1, s + 1);
      forall n | 0 <= n <= |chain| ensures left != chain[..n] {
        PrefixOfValidChain(chain, n);
      }
    }
  }

  lemma {:induction false} SurvivorsInKeyOrder(chain: seq<Row>, keep: set<int>)
    requires InKeyOrder(chain)
    ensures InKeyOrder(Survivors(chain, keep))
    ensures forall row :: row in Survivors(chain, keep) ==> row in chain
  {
    if chain != [] {
      SurvivorsInKeyOrder(chain[1..], keep);
      var rest := Survivors(chain[1..], keep);
      forall i | 0 <= i < |rest| ensures rest[i].no > chain[0].no {
        assert rest[i] in chain[1..];
      }
    }
  }

  /** The same verdict from a checkpoint below the hole, as soon as a window reaches the survivor. */
  lemma {:induction false} DeletionReported(chain: seq<Row>, keep: set<int>, gap: int, survivor: int, windowRows: nat,
                                            v: Verification)
    requires ValidChain(chain) && 1 <= gap < survivor <= |chain|
    requires forall no :: 1 <= no < gap ==> no in keep
    requires forall no :: gap <= no < survivor ==> no !in keep
    requires survivor in keep
    requires 0 <= v.anchorNo < gap && v.anchorBalance == BalanceBefore(chain, v.anchorNo)
    requires BatchRow(v.accountId, Survivors(chain, keep), v.anchorNo, v.anchorBalance, windowRows) == Some(v)
    requires v.batchLastNo >= survivor
    ensures v.firstBreak.Some?
    ensures Verdict(v) == HoleVerdict(chain, gap, survivor)
  {
    var rows := Survivors(chain, keep);
    ValidChainIsInKeyOrder(chain);
    SurvivorsInKeyOrder(chain, keep);
    DeletionClassified(chain, keep, gap, survivor);
    AnchorBelowHoleIsTruthful(chain, keep, v.anchorNo);
    CheckpointCarriesForward(rows, windowRows, v);
    if v.firstBreak.None? {
      TruthfulStopsBeforeBreak(rows, v.LastGoodNo(), v.LastGoodBalance());
    }
  }

  lemma {:induction false} AnchorBelowHoleIsTruthful(chain: seq<Row>, keep: set<int>, anchorNo: nat)
    requires ValidChain(chain) && anchorNo <= |chain|
    requires forall no :: 1 <= no <= anchorNo ==> no in keep
    ensures Truthful(Survivors(chain, keep), anchorNo, BalanceBefore(chain, anchorNo))
  {
    var rows := Survivors(chain, keep);
    ValidChainIsInKeyOrder(chain);
    SurvivorsInKeyOrder(chain, keep);
    assert chain == chain[..anchorNo] + chain[anchorNo..];
    SurvivorsConcat(chain[..anchorNo], chain[anchorNo..], keep);
    SurvivorsAllOrNone(chain[..anchorNo], keep);
    PrefixOfValidChain(chain, anchorNo);
    assert rows[..anchorNo] == chain[..anchorNo];
    CleanPrefixIsTruthful(rows, anchorNo);
  }
}
