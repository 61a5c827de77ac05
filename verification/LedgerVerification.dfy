/**
 The verifier's own tables for each account (checkpoints and incidents), the repository that writes
 them, the scheduler loop over a batch, and the handler that accepts a break.
 */
module LedgerVerification {
  import opened Wrappers
  import opened Ledger
  import opened LedgerWindow

  datatype Checkpoint = Checkpoint(throughNo: int, balance: int, verifiedAt: int)

  datatype Incident = Incident(no: int, kind: Kind, prevNo: int, expected: Option<int>, actual: int,
                               detectedAt: int, resolvedAt: Option<int>, resolvedBy: Option<Uuid>)

  /** The rows of both tables that belong to one account, in insertion order. */
  datatype Book = Book(checkpoints: seq<Checkpoint>, incidents: seq<Incident>)

  const EMPTY_BOOK := Book([], [])

  datatype Settings = Settings(accountsPerRun: nat, rowsPerAccount: nat, maxCheckpointAge: int)

  /** `ORDER BY through_no DESC LIMIT 1`. */
  function Latest(checkpoints: seq<Checkpoint>): Option<Checkpoint> {
    if checkpoints == [] then None
    else
      var last := checkpoints[|checkpoints| - 1];
      match Latest(checkpoints[..|checkpoints| - 1])
      case None => Some(last)
      case Some(c) => if last.throughNo > c.throughNo then Some(last) else Some(c)
  }

  function AnchorNo(book: Book): int {
    match Latest(book.checkpoints) case None => 0 case Some(c) => c.throughNo
  }

  function AnchoredBalance(book: Book): int {
    match Latest(book.checkpoints) case None => 0 case Some(c) => c.balance
  }

  function VerifiedAt(book: Book): Option<int> {
    match Latest(book.checkpoints) case None => None case Some(c) => Some(c.verifiedAt)
  }

  function OpenIncident(incidents: seq<Incident>, i: nat): Option<nat>
    requires i <= |incidents|
    ensures match OpenIncident(incidents, i)
            case None => forall j :: i <= j < |incidents| ==> incidents[j].resolvedAt.Some?
            case Some(k) => i <= k < |incidents| && incidents[k].resolvedAt.None?
    decreases |incidents| - i
  {
    if i == |incidents| then None
    else if incidents[i].resolvedAt.None? then Some(i)
    else OpenIncident(incidents, i + 1)
  }

  predicate Quarantined(book: Book) {
    OpenIncident(book.incidents, 0).Some?
  }

  /** The WHERE clause of `targets`. */
  ghost predicate Eligible(rows: seq<Row>, book: Book, now: int, settings: Settings) {
    && (|| VerifiedAt(book).None?
        || VerifiedAt(book).value < now - settings.maxCheckpointAge
        || exists i :: 0 <= i < |rows| && rows[i].no - AnchorNo(book) >= settings.rowsPerAccount)
    && !Quarantined(book)
    && exists i :: 0 <= i < |rows| && rows[i].no > AnchorNo(book)
  }

  /** `next_batch` for one targeted account. */
  function Examine(accountId: Uuid, rows: seq<Row>, book: Book, settings: Settings): Option<Verification> {
    BatchRow(accountId, rows, AnchorNo(book), AnchoredBalance(book), settings.rowsPerAccount + 1)
  }

  predicate HasCheckpoint(book: Book, throughNo: int) {
    exists i :: 0 <= i < |book.checkpoints| && book.checkpoints[i].throughNo == throughNo
  }

  /** INSERT ... ON CONFLICT (account_id, through_no) DO NOTHING. */
  function AddCheckpoint(book: Book, throughNo: int, balance: int, now: int): Book {
    if HasCheckpoint(book, throughNo) then book
    else book.(checkpoints := book.checkpoints + [Checkpoint(throughNo, balance, now)])
  }

  function IncidentOf(v: Verification, b: Break, now: int): Incident {
    Incident(b.no, b.kind, b.prevNo, v.ExpectedBalance(), b.balance, now, None, None)
  }

  /** INSERT ... ON CONFLICT (account_id) WHERE resolved_at IS NULL DO NOTHING. */
  function AddIncident(book: Book, incident: Incident): Book {
    if Quarantined(book) then book else book.(incidents := book.incidents + [incident])
  }

  /** What one iteration of the scheduler loop writes. */
  function Record(book: Book, v: Verification, now: int): Book {
    var noted := match v.firstBreak case None => book case Some(b) => AddIncident(book, IncidentOf(v, b, now));
    if v.ShouldCheckpoint() then AddCheckpoint(noted, v.LastGoodNo(), v.LastGoodBalance(), now) else noted
  }

  datatype ResolveError = NoOpenDiscrepancy | ThroughNoRequired | NotAhead | NoSuchRow

  function BalanceAt(rows: seq<Row>, no: int): Option<int> {
    if rows == [] then None else if rows[0].no == no then Some(rows[0].balance) else BalanceAt(rows[1..], no)
  }

  /** The resolve handler, as one step: force a checkpoint and lift the quarantine. */
  function Resolve(rows: seq<Row>, book: Book, requested: Option<int>, resolver: Uuid,
                   now: int): Result<Book, ResolveError> {
    match OpenIncident(book.incidents, 0)
    case None => Err(NoOpenDiscrepancy)
    case Some(k) =>
      var incident := book.incidents[k];
      var through := if requested.Some? then requested
                     else if incident.kind.AnchorBalance? then None
                     else Some(incident.no);
      if through.None? then Err(ThroughNoRequired)
      else if through.value <= AnchorNo(book) then Err(NotAhead)
      else
        match BalanceAt(rows, through.value)
        case None => Err(NoSuchRow)
        case Some(balance) =>
          var resolved := incident.(resolvedAt := Some(now), resolvedBy := Some(resolver));
          Ok(AddCheckpoint(book, through.value, balance, now).(incidents := book.incidents[k := resolved]))
  }

  // ------------------------------------------------------------------ invariants of a book

  ghost predicate Ascending(checkpoints: seq<Checkpoint>) {
    && (forall i :: 0 <= i < |checkpoints| ==> checkpoints[i].throughNo >= 1)
    && (forall i, j :: 0 <= i < j < |checkpoints| ==> checkpoints[i].throughNo < checkpoints[j].throughNo)
  }

  /** An open incident sits right after the latest checkpoint, or on it. */
  ghost predicate SitsOnAnchor(incident: Incident, anchorNo: int) {
    && incident.prevNo == anchorNo
    && (if incident.kind.AnchorBalance? then incident.no == anchorNo else incident.no > anchorNo)
  }

  /** Checkpoints only move forward, at most one incident is open, and it sits on the latest checkpoint. */
  ghost predicate BookOk(book: Book) {
    && Ascending(book.checkpoints)
    && (forall i, j :: 0 <= i < j < |book.incidents| ==>
          book.incidents[i].resolvedAt.Some? || book.incidents[j].resolvedAt.Some?)
    && (forall i :: 0 <= i < |book.incidents| && book.incidents[i].resolvedAt.None? ==>
          SitsOnAnchor(book.incidents[i], AnchorNo(book)))
  }

  /** What `next_batch` guarantees about a verification of an account with this book. */
  ghost predicate Fits(book: Book, v: Verification) {
    && !Quarantined(book)
    && v.anchorNo == AnchorNo(book) && v.anchorBalance == AnchoredBalance(book)
    && match v.firstBreak
       case None => v.batchLastNo > v.anchorNo
       case Some(b) =>
         if b.kind.AnchorBalance? then b.no == b.prevNo == v.anchorNo
         else b.no > b.prevNo >= v.anchorNo
  }

  lemma {:induction false} LatestIsLast(checkpoints: seq<Checkpoint>)
    requires Ascending(checkpoints)
    ensures Latest(checkpoints) == if checkpoints == [] then None else Some(checkpoints[|checkpoints| - 1])
  {
    if checkpoints != [] {
      LatestIsLast(checkpoints[..|checkpoints| - 1]);
    }
  }

  /** A targeted account always comes back from the query, with a window that passes its checkpoint. */
  lemma {:induction false} EligibleFits(accountId: Uuid, rows: seq<Row>, book: Book, now: int, settings: Settings)
    requires InKeyOrder(rows) && Eligible(rows, book, now, settings) && settings.rowsPerAccount >= 1
    ensures Examine(accountId, rows, book, settings).Some? && Fits(book, Examine(accountId, rows, book, settings).value)
  {
    var newer :| 0 <= newer < |rows| && rows[newer].no > AnchorNo(book);
    BatchRowPassesAnchor(accountId, rows, AnchorNo(book), AnchoredBalance(book), settings.rowsPerAccount + 1, newer);
  }

  lemma {:induction false} AppendCheckpoint(checkpoints: seq<Checkpoint>, c: Checkpoint)
    requires Ascending(checkpoints) && c.throughNo >= 1
    requires forall i :: 0 <= i < |checkpoints| ==> checkpoints[i].throughNo < c.throughNo
    ensures Ascending(checkpoints + [c]) && Latest(checkpoints + [c]) == Some(c)
  {
    assert Ascending(checkpoints + [c]);
    LatestIsLast(checkpoints + [c]);
  }

  lemma {:induction false} AddCheckpointAhead(book: Book, throughNo: int, balance: int, now: int)
    requires Ascending(book.checkpoints) && throughNo > AnchorNo(book)
    ensures AddCheckpoint(book, throughNo, balance, now)
            == book.(checkpoints := book.checkpoints + [Checkpoint(throughNo, balance, now)])
    ensures Ascending(book.checkpoints + [Checkpoint(throughNo, balance, now)])
    ensures Latest(book.checkpoints + [Checkpoint(throughNo, balance, now)])
        == Some(Checkpoint(throughNo, balance, now))
  {
    var checkpoints := book.checkpoints;
    LatestIsLast(checkpoints);
    forall i | 0 <= i < |checkpoints| ensures checkpoints[i].throughNo < throughNo {
      assert checkpoints[i].throughNo <= checkpoints[|checkpoints| - 1].throughNo;
    }
    AppendCheckpoint(checkpoints, Checkpoint(throughNo, balance, now));
  }

  /**
   One run on one account: the checkpoint insert never meets its conflict clause, the anchor moves to
   the last good row, the incident (if any) is stored as found, and the book stays in order.
   */
  lemma {:induction false} RecordAdvances(book: Book, v: Verification, now: int)
    requires BookOk(book) && Fits(book, v)
    ensures
      var recorded := Record(book, v, now);
      && BookOk(recorded)
      && AnchorNo(recorded) == v.LastGoodNo() >= AnchorNo(book)
      && recorded.checkpoints == book.checkpoints +
           (if v.LastGoodNo() > AnchorNo(book) then [Checkpoint(v.LastGoodNo(), v.LastGoodBalance(), now)] else [])
      && recorded.incidents == book.incidents +
           (match v.firstBreak case None => [] case Some(b) => [IncidentOf(v, b, now)])
  {
    var noted := match v.firstBreak case None => book case Some(b) => AddIncident(book, IncidentOf(v, b, now));
    LatestIsLast(book.checkpoints);
    if v.ShouldCheckpoint() {
      AddCheckpointAhead(noted, v.LastGoodNo(), v.LastGoodBalance(), now);
    }
    var recorded := Record(book, v, now);
    assert recorded.incidents == noted.incidents;
    assert forall i :: 0 <= i < |book.incidents| ==> book.incidents[i].resolvedAt.Some?;
    if v.firstBreak.Some? {
      assert forall i :: 0 <= i < |recorded.incidents| && recorded.incidents[i].resolvedAt.None? ==>
          i == |book.incidents|;
    }
  }

  /** Every served account makes progress: its checkpoint strictly rises, or an incident opens, or both. */
  lemma {:induction false} ServedMakesProgress(accountId: Uuid, rows: seq<Row>, book: Book, now: int,
                                               settings: Settings)
    requires InKeyOrder(rows) && BookOk(book) && Eligible(rows, book, now, settings) && settings.rowsPerAccount >= 1
    ensures
      var v := Examine(accountId, rows, book, settings);
      && v.Some?
      && var recorded := Record(book, v.value, now);
      && (AnchorNo(recorded) > AnchorNo(book) || Quarantined(recorded))
      && (AnchorNo(recorded) > AnchorNo(book) ==> VerifiedAt(recorded) == Some(now))
      && (Quarantined(recorded) <==> v.value.firstBreak.Some?)
  {
    EligibleFits(accountId, rows, book, now, settings);
    RecordMakesProgress(book, Examine(accountId, rows, book, settings).value, now, AnchorNo(book));
  }

  lemma {:induction false} RecordMakesProgress(book: Book, v: Verification, now: int, anchorNo: int)
    requires BookOk(book) && Fits(book, v) && anchorNo == AnchorNo(book)
    ensures
      var recorded := Record(book, v, now);
      && (AnchorNo(recorded) > anchorNo || Quarantined(recorded))
      && (AnchorNo(recorded) > anchorNo ==> VerifiedAt(recorded) == Some(now))
      && (Quarantined(recorded) <==> v.firstBreak.Some?)
  {
    RecordAdvances(book, v, now);
    var recorded := Record(book, v, now);
    if v.LastGoodNo() > anchorNo {
      AddCheckpointAhead(book, v.LastGoodNo(), v.LastGoodBalance(), now);
    }
    if v.firstBreak.Some? {
      assert recorded.incidents[|book.incidents|].resolvedAt.None?;
    } else {
      assert recorded.incidents == book.incidents;
    }
  }

  lemma {:induction false} BalanceAtFinds(rows: seq<Row>, no: int)
    ensures BalanceAt(rows, no).None? <==> forall i :: 0 <= i < |rows| ==> rows[i].no != no
    ensures BalanceAt(rows, no).Some? ==>
              exists i :: 0 <= i < |rows| && rows[i].no == no && rows[i].balance == BalanceAt(rows, no).value
  {
    if rows != [] {
      BalanceAtFinds(rows[1..], no);
      assert forall i :: 0 < i < |rows| ==> rows[i] == rows[1..][i - 1];
    }
  }

  /**
   A resolve keeps the book in order, closes the incident, and moves the checkpoint forward to a row
   of the ledger with that row's own balance; the older checkpoints stay.
   */
  lemma {:induction false} ResolveAdvances(rows: seq<Row>, book: Book, requested: Option<int>, resolver: Uuid, now: int)
    requires BookOk(book) && Resolve(rows, book, requested, resolver, now).Ok?
    ensures
      var resolved := Resolve(rows, book, requested, resolver, now).value;
      && BookOk(resolved) && Quarantined(book) && !Quarantined(resolved)
      && AnchorNo(resolved) > AnchorNo(book) && VerifiedAt(resolved) == Some(now)
      && book.checkpoints == resolved.checkpoints[..|resolved.checkpoints| - 1]
      && BalanceAt(rows, AnchorNo(resolved)) == Some(AnchoredBalance(resolved))
      && var k := OpenIncident(book.incidents, 0).value;
         && AnchorNo(resolved) == (if requested.Some? then requested.value else book.incidents[k].no)
         && |resolved.incidents| == |book.incidents|
         && resolved.incidents[k] == book.incidents[k].(resolvedAt := Some(now), resolvedBy := Some(resolver))
         && forall i :: 0 <= i < |book.incidents| && i != k ==> resolved.incidents[i] == book.incidents[i]
  {
    var k := OpenIncident(book.incidents, 0).value;
    var resolved := Resolve(rows, book, requested, resolver, now).value;
    var through := if requested.Some? then requested.value else book.incidents[k].no;
    AddCheckpointAhead(book, through, BalanceAt(rows, through).value, now);
    OnlyOneOpen(book.incidents, k);
    assert forall i :: 0 <= i < |resolved.incidents| ==> resolved.incidents[i].resolvedAt.Some?;
  }

  lemma {:induction false} OnlyOneOpen(incidents: seq<Incident>, k: nat)
    requires forall i, j :: 0 <= i < j < |incidents| ==> incidents[i].resolvedAt.Some? || incidents[j].resolvedAt.Some?
    requires k < |incidents| && incidents[k].resolvedAt.None?
    ensures forall i :: 0 <= i < |incidents| && i != k ==> incidents[i].resolvedAt.Some?
  {
    forall i | 0 <= i < |incidents| && i != k ensures incidents[i].resolvedAt.Some? {
      if i < k {
        assert incidents[k].resolvedAt.None?;
      }
    }
  }

  /** The number of the last checkpointed row, 0 if there is none. */
  function ThroughNo(book: Book): int {
    if book.checkpoints == [] then 0 else book.checkpoints[|book.checkpoints| - 1].throughNo
  }

  /** The row a resolve is about: the requested one, or the broken one unless that is the checkpointed row itself. */
  ghost predicate Names(requested: Option<int>, incident: Incident, n: int) {
    requested == Some(n) || (requested.None? && incident.kind != AnchorBalance && n == incident.no)
  }

  lemma {:induction false} TheOpenIncident(book: Book, k: nat)
    requires BookOk(book) && k < |book.incidents| && book.incidents[k].resolvedAt.None?
    ensures OpenIncident(book.incidents, 0) == Some(k)
  {
    OnlyOneOpen(book.incidents, k);
  }

  /**
   The resolve handler's answer to any request. It succeeds if and only if an incident is open, a row is named,
   that row lies beyond the last checkpoint, and the ledger has it; the first of these that fails is the error.
   */
  lemma {:induction false} ResolveDecides(rows: seq<Row>, book: Book, requested: Option<int>, resolver: Uuid, now: int)
    requires BookOk(book)
    ensures
      var answer := Resolve(rows, book, requested, resolver, now);
      && (answer.Ok? <==>
            exists k, n ::
              && 0 <= k < |book.incidents| && book.incidents[k].resolvedAt.None?
              && Names(requested, book.incidents[k], n) && n > ThroughNo(book)
              && exists i :: 0 <= i < |rows| && rows[i].no == n)
      && (answer == Err(NoOpenDiscrepancy) <==>
            forall k :: 0 <= k < |book.incidents| ==> book.incidents[k].resolvedAt.Some?)
      && forall k :: 0 <= k < |book.incidents| && book.incidents[k].resolvedAt.None? ==>
           && (answer == Err(ThroughNoRequired) <==> forall n :: !Names(requested, book.incidents[k], n))
           && (answer == Err(NotAhead) <==> exists n :: Names(requested, book.incidents[k], n) && n <= ThroughNo(book))
           && (answer == Err(NoSuchRow) <==>
                 exists n ::
                   && Names(requested, book.incidents[k], n) && n > ThroughNo(book)
                   && forall i :: 0 <= i < |rows| ==> rows[i].no != n)
  {
    var answer := Resolve(rows, book, requested, resolver, now);
    LatestIsLast(book.checkpoints);
    assert ThroughNo(book) == AnchorNo(book);
    var open := OpenIncident(book.incidents, 0);
    if open.Some? {
      var k := open.value;
      OnlyOneOpen(book.incidents, k);
      ResolveOfOpen(rows, book, k, requested, resolver, now);
    }
  }

  lemma {:induction false} ResolveOfOpen(rows: seq<Row>, book: Book, k: nat, requested: Option<int>, resolver: Uuid,
                                         now: int)
    requires OpenIncident(book.incidents, 0) == Some(k) && ThroughNo(book) == AnchorNo(book)
    ensures
      var answer, incident := Resolve(rows, book, requested, resolver, now), book.incidents[k];
      && (answer == Err(ThroughNoRequired) <==> forall n :: !Names(requested, incident, n))
      && (answer == Err(NotAhead) <==> exists n :: Names(requested, incident, n) && n <= ThroughNo(book))
      && (answer == Err(NoSuchRow) <==>
            exists n ::
              && Names(requested, incident, n) && n > ThroughNo(book)
              && forall i :: 0 <= i < |rows| ==> rows[i].no != n)
      && (answer.Ok? <==>
            exists n ::
              && Names(requested, incident, n) && n > ThroughNo(book)
              && exists i :: 0 <= i < |rows| && rows[i].no == n)
      && answer != Err(NoOpenDiscrepancy)
  {
    var incident := book.incidents[k];
    if requested.Some? || incident.kind != AnchorBalance {
      var n := if requested.Some? then requested.value else incident.no;
      assert Names(requested, incident, n);
      assert forall other :: Names(requested, incident, other) ==> other == n;
      BalanceAtFinds(rows, n);
    } else {
      assert forall n :: !Names(requested, incident, n);
    }
  }

  /** With no explicit row, a resolve fails only on an anchor break or on a broken row that has gone. */
  lemma {:induction false} DefaultResolve(rows: seq<Row>, book: Book, k: nat, resolver: Uuid, now: int)
    requires BookOk(book) && k < |book.incidents| && book.incidents[k].resolvedAt.None?
    ensures Resolve(rows, book, None, resolver, now) != Err(NotAhead)
    ensures Resolve(rows, book, None, resolver, now).Ok? <==>
              && !book.incidents[k].kind.AnchorBalance?
              && exists i :: 0 <= i < |rows| && rows[i].no == book.incidents[k].no
  {
    var open := OpenIncident(book.incidents, 0).value;
    assert open == k;
    BalanceAtFinds(rows, book.incidents[k].no);
  }

  // ------------------------------------------------------------------ the repository and the loop

  /** An account's first open incident stays the only one: while it is open, a further one is not stored. */
  lemma {:induction false} AddIncidentKeepsTheFirst(book: Book, incident: Incident)
    requires incident.resolvedAt.None?
    ensures
      var book' := AddIncident(book, incident);
      && book'.checkpoints == book.checkpoints
      && (if exists i :: 0 <= i < |book.incidents| && book.incidents[i].resolvedAt.None? then book' == book
          else
            && book'.incidents == book.incidents + [incident]
            && OpenIncident(book'.incidents, 0) == Some(|book.incidents|))
  {
    if Quarantined(book) {
      assert book.incidents[OpenIncident(book.incidents, 0).value].resolvedAt.None?;
    } else {
      var incidents' := book.incidents + [incident];
      assert forall i :: 0 <= i < |book.incidents| ==> incidents'[i].resolvedAt.Some?;
      assert incidents'[|book.incidents|].resolvedAt.None?;
    }
  }

  function BookOf(books: map<Uuid, Book>, accountId: Uuid): Book {
    if accountId in books then books[accountId] else EMPTY_BOOK
  }

  /**
   The account has the checkpoint's row checkpointed: if it had before, nothing has changed; otherwise the
   checkpoint was stored last in its book. No other account's book has changed.
   */
  ghost predicate Ensured(books: map<Uuid, Book>, books': map<Uuid, Book>, accountId: Uuid, c: Checkpoint) {
    var book := BookOf(books, accountId);
    if HasCheckpoint(book, c.throughNo) then books' == books
    else
      && books'.Keys == books.Keys + {accountId}
      && books'[accountId] == Book(book.checkpoints + [c], book.incidents)
      && forall a :: a in books && a != accountId ==> books'[a] == books[a]
  }

  lemma {:induction false} AddedIsEnsured(books: map<Uuid, Book>, accountId: Uuid, throughNo: int, balance: int,
                                          now: int)
    ensures
      var book' := AddCheckpoint(BookOf(books, accountId), throughNo, balance, now);
      HasCheckpoint(book', throughNo)
      && Ensured(books, books[accountId := book'], accountId, Checkpoint(throughNo, balance, now))
  {
    var book := BookOf(books, accountId);
    var book' := AddCheckpoint(book, throughNo, balance, now);
    if HasCheckpoint(book, throughNo) {
      assert books[accountId := book'] == books;
    } else {
      assert book'.checkpoints[|book.checkpoints|].throughNo == throughNo;
    }
  }

  lemma {:induction false} EnsuredIsAdded(books: map<Uuid, Book>, books': map<Uuid, Book>, accountId: Uuid,
                                          throughNo: int, balance: int, now: int)
    requires Ensured(books, books', accountId, Checkpoint(throughNo, balance, now))
    ensures books' == books[accountId := AddCheckpoint(BookOf(books, accountId), throughNo, balance, now)]
  {
    var book := BookOf(books, accountId);
    if HasCheckpoint(book, throughNo) {
      assert books == books[accountId := book];
    } else {
      var book' := AddCheckpoint(book, throughNo, balance, now);
      assert book' == books'[accountId];
      assert books[accountId := book'].Keys == books'.Keys;
      forall a | a in books' ensures books'[a] == books[accountId := book'][a] {
        if a != accountId {
          assert a in books'.Keys && a in books;
        }
      }
    }
  }

  /** A batch recorded in order, each verification at its own clock reading. */
  function RecordAll(books: map<Uuid, Book>, batch: seq<Verification>, times: seq<int>): map<Uuid, Book>
    requires |times| == |batch|
  {
    if batch == [] then books
    else
      var last := |batch| - 1;
      var v, before := batch[last], RecordAll(books, batch[..last], times[..last]);
      if v.firstBreak.None? && !v.ShouldCheckpoint() then before
      else before[v.accountId := Record(BookOf(before, v.accountId), v, times[last])]
  }

  function Count(batch: seq<Verification>, p: Verification -> bool): nat {
    if batch == [] then 0
    else Count(batch[..|batch| - 1], p) + if p(batch[|batch| - 1]) then 1 else 0
  }

  datatype Error = NoBreakToRecord

  class Repository {
    var books: map<Uuid, Book>

    constructor ()
      ensures books == map[]
    {
      books := map[];
    }

    /** Afterwards the account has a checkpoint at that row: the one it had, or else the new one. */
    method InsertCheckpoint(accountId: Uuid, throughNo: int, balance: int, now: int)
      modifies this
      ensures HasCheckpoint(BookOf(books, accountId), throughNo)
      ensures Ensured(old(books), books, accountId, Checkpoint(throughNo, balance, now))
    {
      ghost var before := books;
      books := books[accountId := AddCheckpoint(BookOf(books, accountId), throughNo, balance, now)];
      AddedIsEnsured(before, accountId, throughNo, balance, now);
    }

    /**
     Checkpoints the last good row with that row's balance. If the verification started from the account's
     own checkpoint, that row becomes the anchor.
     */
    method RecordVerified(v: Verification, now: int)
      modifies this
      ensures HasCheckpoint(BookOf(books, v.accountId), v.LastGoodNo())
      ensures Ensured(old(books), books, v.accountId, Checkpoint(v.LastGoodNo(), v.LastGoodBalance(), now))
      ensures
        var book, book' := BookOf(old(books), v.accountId), BookOf(books, v.accountId);
        Ascending(book.checkpoints) && v.anchorNo == AnchorNo(book) && v.ShouldCheckpoint() ==>
          && Ascending(book'.checkpoints)
          && Latest(book'.checkpoints) == Some(Checkpoint(v.LastGoodNo(), v.LastGoodBalance(), now))
    {
      ghost var before := books;
      InsertCheckpoint(v.accountId, v.LastGoodNo(), v.LastGoodBalance(), now);
      EnsuredIsAdded(before, books, v.accountId, v.LastGoodNo(), v.LastGoodBalance(), now);
      ghost var book := BookOf(before, v.accountId);
      if Ascending(book.checkpoints) && v.anchorNo == AnchorNo(book) && v.ShouldCheckpoint() {
        AddCheckpointAhead(book, v.LastGoodNo(), v.LastGoodBalance(), now);
      }
    }

    method RecordDiscrepancy(v: Verification, now: int) returns (r: Result<(), Error>)
      modifies this
      ensures r.Err? <==> v.firstBreak.None?
      ensures r.Err? ==> books == old(books)
      ensures r.Ok? ==> books == old(books)[v.accountId :=
                AddIncident(BookOf(old(books), v.accountId), IncidentOf(v, v.firstBreak.value, now))]
      ensures Quarantined(BookOf(old(books), v.accountId)) ==>
                BookOf(books, v.accountId) == BookOf(old(books), v.accountId)
      ensures r.Ok? ==> Quarantined(BookOf(books, v.accountId))
    {
      if v.firstBreak.Some? {
        AddIncidentKeepsTheFirst(BookOf(books, v.accountId), IncidentOf(v, v.firstBreak.value, now));
      }
      if v.firstBreak.None? {
        return Err(NoBreakToRecord);
      }
      var b := v.firstBreak.value;
      books := books[v.accountId := AddIncident(BookOf(books, v.accountId), IncidentOf(v, b, now))];
      r := Ok(());
    }

    /** The resolve handler against the stored tables; an error changes nothing. */
    method ResolveDiscrepancy(rows: seq<Row>, accountId: Uuid, requested: Option<int>, resolver: Uuid, now: int)
      returns (r: Result<(), ResolveError>)
      modifies this
      ensures match Resolve(rows, BookOf(old(books), accountId), requested, resolver, now)
              case Err(e) => r == Err(e) && books == old(books)
              case Ok(book) => r == Ok(()) && books == old(books)[accountId := book]
    {
      var book := BookOf(books, accountId);
      var open := OpenIncident(book.incidents, 0);
      if open.None? {
        return Err(NoOpenDiscrepancy);
      }
      var incident := book.incidents[open.value];
      var through := requested;
      if through.None? && !incident.kind.AnchorBalance? {
        through := Some(incident.no);
      }
      if through.None? {
        return Err(ThroughNoRequired);
      }
      if through.value <= AnchorNo(book) {
        return Err(NotAhead);
      }
      var balance := BalanceAt(rows, through.value);
      if balance.None? {
        return Err(NoSuchRow);
      }
      ghost var before := books;
      InsertCheckpoint(accountId, through.value, balance.value, now);
      EnsuredIsAdded(before, books, accountId, through.value, balance.value, now);
      book := books[accountId];
      incident := incident.(resolvedAt := Some(now), resolvedBy := Some(resolver));
      books := books[accountId := book.(incidents := book.incidents[open.value := incident])];
      r := Ok(());
    }
  }

  /** The loop over a batch: it writes each break and each checkpoint, and counts both. */
  method RecordBatch(repo: Repository, batch: seq<Verification>, times: seq<int>)
    returns (checkpoints: nat, discrepancies: nat)
    requires |times| == |batch|
    modifies repo
    ensures repo.books == RecordAll(old(repo.books), batch, times)
    ensures discrepancies == Count(batch, (v: Verification) => v.firstBreak.Some?)
    ensures checkpoints == Count(batch, (v: Verification) => v.ShouldCheckpoint())
  {
    checkpoints, discrepancies := 0, 0;
    ghost var broke := (v: Verification) => v.firstBreak.Some?;
    ghost var banked := (v: Verification) => v.ShouldCheckpoint();
    for i := 0 to |batch|
      invariant repo.books == RecordAll(old(repo.books), batch[..i], times[..i])
      invariant discrepancies == Count(batch[..i], broke) && checkpoints == Count(batch[..i], banked)
    {
      var v := batch[i];
      assert batch[..i + 1][..i] == batch[..i] && times[..i + 1][..i] == times[..i];
      ghost var before := repo.books;
      if v.firstBreak.Some? {
        discrepancies := discrepancies + 1;
        var _ := repo.RecordDiscrepancy(v, times[i]);
      }
      if v.ShouldCheckpoint() {
        checkpoints := checkpoints + 1;
        ghost var noted := repo.books;
        repo.RecordVerified(v, times[i]);
        EnsuredIsAdded(noted, repo.books, v.accountId, v.LastGoodNo(), v.LastGoodBalance(), times[i]);
      }
      if v.firstBreak.Some? || v.ShouldCheckpoint() {
        assert repo.books == before[v.accountId := Record(BookOf(before, v.accountId), v, times[i])];
      }
    }
    assert batch[..|batch|] == batch && times[..|times|] == times;
  }

  /** Accounts in a batch are distinct, so each one's book gets exactly its own record. */
  lemma {:induction false} RecordAllPerAccount(books: map<Uuid, Book>, batch: seq<Verification>, times: seq<int>,
                                               accountId: Uuid)
    requires |times| == |batch|
    requires forall i, j :: 0 <= i < j < |batch| ==> batch[i].accountId != batch[j].accountId
    ensures (forall i :: 0 <= i < |batch| ==> batch[i].accountId != accountId) ==>
              BookOf(RecordAll(books, batch, times), accountId) == BookOf(books, accountId)
    ensures forall i :: 0 <= i < |batch| && batch[i].accountId == accountId ==>
              BookOf(RecordAll(books, batch, times), accountId) == Record(BookOf(books, accountId), batch[i], times[i])
  {
    if batch != [] {
      var last := |batch| - 1;
      RecordAllPerAccount(books, batch[..last], times[..last], accountId);
    }
  }
}
