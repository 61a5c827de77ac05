/**
 The account list: filters, ordering, the keyset cursor and the next cursor, and what a client gets
 that feeds each next cursor back with the same sort, filters and count.
 */
module AccountListing {
  import opened Wrappers
  import opened CursorOrder
  import LikeEscape

  datatype SortField = Currency | Status | CreatedAt

  datatype SortRequest = SortRequest(field: SortField, dir: Direction)

  /** The position after a row; a field is present only if the list is sorted by it. */
  datatype Cursor = Cursor(currency: Option<Value>, status: Option<Value>, createdAt: Option<Value>, id: Value)

  datatype Query = Query(
    sort: seq<SortRequest>, count: Option<nat>, cursor: Option<Cursor>,
    name: Option<string>, currency: Option<Value>, status: Option<Value>,
    createdAtFrom: Option<Value>, createdAtTo: Option<Value>)

  function ColumnOf(field: SortField): Column {
    match field
    case Currency => CurrencyColumn
    case Status => StatusColumn
    case CreatedAt => CreatedAtColumn
  }

  function CursorField(cursor: Cursor, field: SortField): Option<Value> {
    match field
    case Currency => cursor.currency
    case Status => cursor.status
    case CreatedAt => cursor.createdAt
  }

  /** `query.count or 20`; the schema admits 1 to 100. */
  function LimitOf(query: Query): (limit: nat)
    ensures limit >= 1
  {
    match query.count case None => 20 case Some(n) => if n == 0 then 20 else n
  }

  predicate Within(value: Value, wanted: Option<Value>) {
    wanted.None? || value == wanted.value
  }

  /** The filters; a name that is null matches no name filter. */
  predicate Matches(fold: char -> char, query: Query, row: Account) {
    && (query.name.Some? ==>
          row.name.Some? && LikeEscape.ILike(fold, LikeEscape.Pattern(query.name.value), row.name.value))
    && Within(row.currency, query.currency)
    && Within(row.status, query.status)
    && (query.createdAtFrom.Some? ==> row.createdAt >= query.createdAtFrom.value)
    && (query.createdAtTo.Some? ==> row.createdAt < query.createdAtTo.value)
  }

  // ------------------------------------------------------------------ SELECT ... WHERE ... ORDER BY ... LIMIT

  function Filter(rows: seq<Account>, keep: Account -> bool): seq<Account> {
    if rows == [] then []
    else if keep(rows[0]) then [rows[0]] + Filter(rows[1..], keep)
    else Filter(rows[1..], keep)
  }

  function Insert(ordering: Ordering, row: Account, sorted: seq<Account>): seq<Account> {
    if sorted == [] || Precedes(ordering, row, sorted[0]) then [row] + sorted
    else [sorted[0]] + Insert(ordering, row, sorted[1..])
  }

  function OrderBy(ordering: Ordering, rows: seq<Account>): seq<Account> {
    if rows == [] then [] else Insert(ordering, rows[0], OrderBy(ordering, rows[1..]))
  }

  function Take(rows: seq<Account>, limit: nat): seq<Account> {
    if |rows| <= limit then rows else rows[..limit]
  }

  function Select(table: seq<Account>, keep: Account -> bool, ordering: Ordering, limit: nat): seq<Account> {
    Take(OrderBy(ordering, Filter(table, keep)), limit)
  }

  // ------------------------------------------------------------------ the list operation

  /** The requested columns in the requested order, ties broken by id, newest first. */
  function OrderingOf(sort: seq<SortRequest>): Ordering {
    if sort == [] then [(IdColumn, Desc)]
    else [(ColumnOf(sort[0].field), sort[0].dir)] + OrderingOf(sort[1..])
  }

  /** The cursor counts only if it holds a value for every field the list is sorted by. */
  predicate Accepts(sort: seq<SortRequest>, cursor: Option<Cursor>) {
    cursor.Some? && forall i :: 0 <= i < |sort| ==> CursorField(cursor.value, sort[i].field).Some?
  }

  function CursorKey(sort: seq<SortRequest>, cursor: Cursor): (key: seq<Value>)
    requires Accepts(sort, Some(cursor))
    ensures |key| == |OrderingOf(sort)|
  {
    if sort == [] then [cursor.id]
    else
      assert CursorField(cursor, sort[0].field).Some?;
      assert forall i :: 0 <= i < |sort[1..]| ==> sort[1..][i] == sort[i + 1];
      [CursorField(cursor, sort[0].field).value] + CursorKey(sort[1..], cursor)
  }

  /** With an unusable cursor the list starts over. */
  predicate AfterCursor(query: Query, row: Account) {
    Accepts(query.sort, query.cursor) ==>
      StrictlyAfter(OrderingOf(query.sort), CursorKey(query.sort, query.cursor.value), row)
  }

  predicate SortedBy(sort: seq<SortRequest>, field: SortField) {
    exists i :: 0 <= i < |sort| && sort[i].field == field
  }

  function CursorAt(sort: seq<SortRequest>, row: Account): Cursor {
    Cursor(if SortedBy(sort, Currency) then Some(row.currency) else None,
           if SortedBy(sort, Status) then Some(row.status) else None,
           if SortedBy(sort, CreatedAt) then Some(row.createdAt) else None,
           row.id)
  }

  /** The rows, and the cursor to the next page if the page is full. */
  type Page = (seq<Account>, Option<Cursor>)

  function ListPage(fold: char -> char, table: seq<Account>, query: Query): Page {
    var keep := row => AfterCursor(query, row) && Matches(fold, query, row);
    var rows := Select(table, keep, OrderingOf(query.sort), LimitOf(query));
    (rows, if |rows| == LimitOf(query) then Some(CursorAt(query.sort, rows[|rows| - 1])) else None)
  }

  function Clause(request: SortRequest): (Column, Direction) {
    (ColumnOf(request.field), request.dir)
  }

  predicate HasField(cursor: Option<Cursor>, field: SortField) {
    cursor.Some? && CursorField(cursor.value, field).Some?
  }

  /** The loop over the sort fields: the ORDER BY, and the cursor's columns and values if it is accepted. */
  method CollectSort(query: Query)
    returns (orderClauses: Ordering, cursorOrdering: Ordering, cursorValues: seq<Value>, cursorAccepted: bool)
    ensures orderClauses == OrderingOf(query.sort)
    ensures cursorAccepted <==> Accepts(query.sort, query.cursor)
    ensures cursorAccepted ==>
        cursorOrdering == orderClauses && cursorValues == CursorKey(query.sort, query.cursor.value)
  {
    orderClauses, cursorOrdering, cursorValues, cursorAccepted := [], [], [], true;
    for i := 0 to |query.sort|
      invariant |orderClauses| == i && forall k :: 0 <= k < i ==> orderClauses[k] == Clause(query.sort[k])
      invariant cursorAccepted <==> forall k :: 0 <= k < i ==> HasField(query.cursor, query.sort[k].field)
      invariant cursorAccepted ==> cursorOrdering == orderClauses && |cursorValues| == i
      invariant cursorAccepted && query.cursor.Some? ==>
                  forall k :: 0 <= k < i ==>
                      Some(cursorValues[k]) == CursorField(query.cursor.value, query.sort[k].field)
    {
      var request := query.sort[i];
      orderClauses := orderClauses + [Clause(request)];
      if query.cursor.None? || CursorField(query.cursor.value, request.field).None? {
        cursorAccepted := false;
        continue;
      }
      cursorOrdering := cursorOrdering + [Clause(request)];
      cursorValues := cursorValues + [CursorField(query.cursor.value, request.field).value];
    }
    orderClauses := orderClauses + [(IdColumn, Desc)];
    OrderingIs(query.sort, orderClauses);
    if cursorAccepted && query.cursor.None? {
      cursorAccepted := false;
    } else if cursorAccepted {
      cursorOrdering := cursorOrdering + [(IdColumn, Desc)];
      cursorValues := cursorValues + [query.cursor.value.id];
      CursorKeyIs(query.sort, query.cursor.value, cursorValues);
    }
  }

  lemma {:induction false} OrderingIs(sort: seq<SortRequest>, clauses: Ordering)
    requires |clauses| == |sort| + 1 && clauses[|sort|] == (IdColumn, Desc)
    requires forall k :: 0 <= k < |sort| ==> clauses[k] == Clause(sort[k])
    ensures OrderingOf(sort) == clauses
  {
    if sort != [] {
      OrderingIs(sort[1..], clauses[1..]);
    }
  }

  lemma {:induction false} CursorKeyIs(sort: seq<SortRequest>, cursor: Cursor, values: seq<Value>)
    requires |values| == |sort| + 1 && values[|sort|] == cursor.id
    requires forall k :: 0 <= k < |sort| ==> Some(values[k]) == CursorField(cursor, sort[k].field)
    ensures Accepts(sort, Some(cursor)) && CursorKey(sort, cursor) == values
  {
    if sort != [] {
      CursorKeyIs(sort[1..], cursor, values[1..]);
    }
  }

  /** The operation as written: the sort loop, the conditions, the page and its next cursor. */
  method ListAll(fold: char -> char, table: seq<Account>, query: Query)
    returns (page: seq<Account>, next: Option<Cursor>)
    ensures (page, next) == ListPage(fold, table, query)
  {
    var orderClauses, cursorOrdering, cursorValues, cursorAccepted := CollectSort(query);
    var after: Account -> bool := row => true;
    if cursorAccepted {
      var built := BuildCursorCondition(cursorOrdering, cursorValues);
      var condition := built.value;
      after := row => Eval(condition, row);
    }
    var keep := row => after(row) && Matches(fold, query, row);
    page := Select(table, keep, orderClauses, LimitOf(query));
    assert forall row :: after(row) == AfterCursor(query, row);
    FilterSame(table, keep, row => AfterCursor(query, row) && Matches(fold, query, row));
    next := None;
    if |page| == LimitOf(query) {
      next := Some(CursorAt(query.sort, page[|page| - 1]));
    }
  }

  lemma {:induction false} FilterSame(rows: seq<Account>, p: Account -> bool, q: Account -> bool)
    requires forall row :: p(row) == q(row)
    ensures Filter(rows, p) == Filter(rows, q)
  {
    if rows != [] {
      FilterSame(rows[1..], p, q);
    }
  }

  // ------------------------------------------------------------------ one ordered list behind all pages

  /** Everything the query selects, in order. */
  function FullList(fold: char -> char, table: seq<Account>, query: Query): seq<Account> {
    OrderBy(OrderingOf(query.sort), Filter(table, row => Matches(fold, query, row)))
  }

  ghost predicate DistinctIds(rows: seq<Account>) {
    forall i, j :: 0 <= i < j < |rows| ==> rows[i].id != rows[j].id
  }

  ghost predicate InOrder(ordering: Ordering, rows: seq<Account>) {
    forall i, j :: 0 <= i < j < |rows| ==> Precedes(ordering, rows[i], rows[j])
  }

  lemma {:induction false} OrderingEndsInId(sort: seq<SortRequest>)
    ensures OrderingOf(sort) != [] && OrderingOf(sort)[|OrderingOf(sort)| - 1].0 == IdColumn
  {
    if sort != [] {
      OrderingEndsInId(sort[1..]);
    }
  }

  lemma {:induction false} InsertInOrder(ordering: Ordering, row: Account, sorted: seq<Account>)
    requires ordering != [] && ordering[|ordering| - 1].0 == IdColumn
    requires InOrder(ordering, sorted) && forall i :: 0 <= i < |sorted| ==> sorted[i].id != row.id
    ensures InOrder(ordering, Insert(ordering, row, sorted))
    ensures multiset(Insert(ordering, row, sorted)) == multiset(sorted) + multiset{row}
  {
    if sorted == [] {
    } else if Precedes(ordering, row, sorted[0]) {
      forall i | 0 <= i < |sorted| ensures Precedes(ordering, row, sorted[i]) {
        if i > 0 {
          PrecedesTransitive(ordering, row, sorted[0], sorted[i]);
        }
      }
    } else {
      PrecedesTotal(ordering, row, sorted[0]);
      InsertInOrder(ordering, row, sorted[1..]);
      assert sorted == [sorted[0]] + sorted[1..];
      var rest := Insert(ordering, row, sorted[1..]);
      forall i | 0 <= i < |rest| ensures Precedes(ordering, sorted[0], rest[i]) {
        assert rest[i] in multiset(rest);
        assert rest[i] == row || rest[i] in sorted[1..];
      }
    }
  }

  lemma {:induction false} OrderByInOrder(ordering: Ordering, rows: seq<Account>)
    requires ordering != [] && ordering[|ordering| - 1].0 == IdColumn && DistinctIds(rows)
    ensures InOrder(ordering, OrderBy(ordering, rows)) && multiset(OrderBy(ordering, rows)) == multiset(rows)
  {
    if rows != [] {
      OrderByInOrder(ordering, rows[1..]);
      var sorted := OrderBy(ordering, rows[1..]);
      FirstIdIsNew(rows, sorted);
      InsertInOrder(ordering, rows[0], sorted);
      assert rows == [rows[0]] + rows[1..];
    }
  }

  lemma {:induction false} FirstIdIsNew(rows: seq<Account>, sorted: seq<Account>)
    requires rows != [] && DistinctIds(rows) && multiset(sorted) == multiset(rows[1..])
    ensures DistinctIds(rows[1..]) && forall i :: 0 <= i < |sorted| ==> sorted[i].id != rows[0].id
  {
    forall i | 0 <= i < |sorted| ensures sorted[i].id != rows[0].id {
      assert sorted[i] in multiset(sorted);
      var j :| 0 <= j < |rows[1..]| && rows[1..][j] == sorted[i];
      assert rows[j + 1] == sorted[i];
    }
  }

  lemma {:induction false} FilterKeeps(rows: seq<Account>, keep: Account -> bool)
    ensures forall row :: row in Filter(rows, keep) <==> row in rows && keep(row)
    ensures DistinctIds(rows) ==> DistinctIds(Filter(rows, keep))
  {
    if rows != [] {
      FilterKeeps(rows[1..], keep);
      assert forall row :: row in rows <==> row == rows[0] || row in rows[1..];
      if DistinctIds(rows) {
        var rest := Filter(rows[1..], keep);
        forall i | 0 <= i < |rest| ensures rest[i].id != rows[0].id {
          assert rest[i] in rows[1..];
          var j :| 0 <= j < |rows[1..]| && rows[1..][j] == rest[i];
          assert rows[j + 1] == rest[i];
        }
      }
    }
  }

  /** Filtering commutes with inserting into, and therefore with sorting, an ordered list. */
  lemma {:induction false} FilterInsert(ordering: Ordering, row: Account, sorted: seq<Account>, keep: Account -> bool)
    requires InOrder(ordering, sorted)
    ensures Filter(Insert(ordering, row, sorted), keep) ==
            if keep(row) then Insert(ordering, row, Filter(sorted, keep)) else Filter(sorted, keep)
  {
    if sorted == [] {
      assert [row] + sorted == [row];
    } else if Precedes(ordering, row, sorted[0]) {
      assert ([row] + sorted)[1..] == sorted;
      FilterKeeps(sorted, keep);
      var kept := Filter(sorted, keep);
      if kept != [] {
        assert kept[0] in sorted;
        var i :| 0 <= i < |sorted| && sorted[i] == kept[0];
        if i > 0 {
          PrecedesTransitive(ordering, row, sorted[0], sorted[i]);
        }
      }
    } else {
      var rest := Insert(ordering, row, sorted[1..]);
      assert ([sorted[0]] + rest)[1..] == rest;
      FilterInsert(ordering, row, sorted[1..], keep);
      if keep(sorted[0]) {
        assert Filter(sorted, keep)[1..] == Filter(sorted[1..], keep);
      }
    }
  }

  lemma {:induction false} FilterOrderBy(ordering: Ordering, rows: seq<Account>, keep: Account -> bool)
    requires ordering != [] && ordering[|ordering| - 1].0 == IdColumn && DistinctIds(rows)
    ensures OrderBy(ordering, Filter(rows, keep)) == Filter(OrderBy(ordering, rows), keep)
  {
    if rows != [] {
      OrderByInOrder(ordering, rows[1..]);
      FilterOrderBy(ordering, rows[1..], keep);
      FilterInsert(ordering, rows[0], OrderBy(ordering, rows[1..]), keep);
    }
  }

  lemma {:induction false} FilterTwice(rows: seq<Account>,
                                       p: Account -> bool, q: Account -> bool, both: Account -> bool)
    requires forall row :: both(row) <==> p(row) && q(row)
    ensures Filter(rows, both) == Filter(Filter(rows, p), q)
  {
    if rows != [] {
      FilterTwice(rows[1..], p, q, both);
      if p(rows[0]) {
        assert Filter(rows, p)[1..] == Filter(rows[1..], p);
      }
    }
  }

  lemma {:induction false} FilterAll(rows: seq<Account>, keep: Account -> bool)
    requires forall i :: 0 <= i < |rows| ==> keep(rows[i])
    ensures Filter(rows, keep) == rows
  {
    if rows != [] {
      FilterAll(rows[1..], keep);
      assert [rows[0]] + rows[1..] == rows;
    }
  }

  lemma {:induction false} FilterIsRest(rows: seq<Account>, keep: Account -> bool, k: nat)
    requires k <= |rows|
    requires forall i :: 0 <= i < k ==> !keep(rows[i])
    requires forall i :: k <= i < |rows| ==> keep(rows[i])
    ensures Filter(rows, keep) == rows[k..]
  {
    if k == 0 {
      FilterAll(rows, keep);
    } else {
      FilterIsRest(rows[1..], keep, k - 1);
      assert rows[1..][k - 1..] == rows[k..];
    }
  }

  /** The first k rows do not lie beyond the key, all others do. */
  ghost predicate SplitsAt(ordering: Ordering, key: seq<Value>, rows: seq<Account>, k: nat)
    requires |ordering| == |key|
  {
    && k <= |rows|
    && (forall i :: 0 <= i < k ==> !StrictlyAfter(ordering, key, rows[i]))
    && (forall i :: k <= i < |rows| ==> StrictlyAfter(ordering, key, rows[i]))
  }

  /** Any key splits an ordered list, whether or not the list has a row with that key. */
  lemma {:induction false} EveryKeySplits(ordering: Ordering, key: seq<Value>, rows: seq<Account>) returns (k: nat)
    requires |ordering| == |key| && InOrder(ordering, rows)
    ensures SplitsAt(ordering, key, rows, k)
  {
    k := 0;
    while k < |rows| && !StrictlyAfter(ordering, key, rows[k])
      invariant k <= |rows| && forall i :: 0 <= i < k ==> !StrictlyAfter(ordering, key, rows[i])
    {
      k := k + 1;
    }
    forall i | k <= i < |rows| ensures StrictlyAfter(ordering, key, rows[i]) {
      if k < i {
        BeyondIsUpward(ordering, key, rows[k], rows[i]);
      }
    }
  }

  /** The key of row k splits the list right behind that row. */
  lemma {:induction false} RowSplitsBehindItself(ordering: Ordering, rows: seq<Account>, k: nat)
    requires InOrder(ordering, rows) && k < |rows|
    ensures SplitsAt(ordering, Key(ordering, rows[k]), rows, k + 1)
  {
    forall i | 0 <= i <= k ensures !Precedes(ordering, rows[k], rows[i]) {
      if Precedes(ordering, rows[k], rows[i]) {
        if i < k {
          PrecedesTransitive(ordering, rows[i], rows[k], rows[i]);
        }
        PrecedesIrreflexive(ordering, rows[i]);
      }
    }
  }

  /** The cursor of a row, read back under the same sort, is that row's key. */
  lemma {:induction false} CursorRoundTrip(sort: seq<SortRequest>, all: seq<SortRequest>, row: Account)
    requires forall i :: 0 <= i < |sort| ==> SortedBy(all, sort[i].field)
    ensures Accepts(sort, Some(CursorAt(all, row)))
    ensures CursorKey(sort, CursorAt(all, row)) == Key(OrderingOf(sort), row)
  {
    if sort != [] {
      CursorRoundTrip(sort[1..], all, row);
      KeyTail(OrderingOf(sort), row);
      assert OrderingOf(sort)[1..] == OrderingOf(sort[1..]);
      assert SortedBy(all, sort[0].field);
    }
  }

  /** A page of an ordered list, and the cursor to the next one exactly when the page is full. */
  function Slice(full: seq<Account>, start: nat, limit: nat, sort: seq<SortRequest>): Page
    requires start <= |full| && limit >= 1
  {
    (Take(full[start..], limit),
     if start + limit <= |full| then Some(CursorAt(sort, full[start + limit - 1])) else None)
  }

  /** If a query selects the full list from some row on, its page is the slice that starts there. */
  lemma {:induction false} PageOfSelection(fold: char -> char, table: seq<Account>, query: Query, full: seq<Account>,
                                           start: nat,
                                           keep: Account -> bool)
    requires forall row :: keep(row) <==> AfterCursor(query, row) && Matches(fold, query, row)
    requires start <= |full| && OrderBy(OrderingOf(query.sort), Filter(table, keep)) == full[start..]
    ensures ListPage(fold, table, query) == Slice(full, start, LimitOf(query), query.sort)
  {
    FilterSame(table, keep, row => AfterCursor(query, row) && Matches(fold, query, row));
  }

  lemma {:induction false} FullListIgnoresCursor(fold: char -> char, table: seq<Account>, query: Query,
                                                 cursor: Option<Cursor>)
    ensures FullList(fold, table, query.(cursor := cursor)) == FullList(fold, table, query)
  {
    var query' := query.(cursor := cursor);
    FilterSame(table, row => Matches(fold, query', row), row => Matches(fold, query, row));
  }

  /** With an accepted cursor, the page is the start of what lies strictly after the cursor's key. */
  lemma {:induction false} PageBeyondKey(fold: char -> char, table: seq<Account>, query: Query, k: nat)
    requires DistinctIds(table) && Accepts(query.sort, query.cursor)
    requires
      var key := CursorKey(query.sort, query.cursor.value);
      SplitsAt(OrderingOf(query.sort), key, FullList(fold, table, query), k)
    ensures ListPage(fold, table, query) == Slice(FullList(fold, table, query), k, LimitOf(query), query.sort)
  {
    var ordering, full := OrderingOf(query.sort), FullList(fold, table, query);
    var key := CursorKey(query.sort, query.cursor.value);
    var matching := (row: Account) => Matches(fold, query, row);
    var after := row => StrictlyAfter(ordering, key, row);
    var both := row => AfterCursor(query, row) && Matches(fold, query, row);
    OrderingEndsInId(query.sort);
    FilterSame(table, matching, row => Matches(fold, query, row));
    RestOfSelection(ordering, table, full, k, matching, after, both);
    PageOfSelection(fold, table, query, full, k, both);
  }

  /** Selecting what matches and lies behind the first k rows gives the rest of what matches. */
  lemma {:induction false} RestOfSelection(ordering: Ordering, table: seq<Account>, full: seq<Account>, k: nat,
                                           matching: Account -> bool, after: Account -> bool, both: Account -> bool)
    requires ordering != [] && ordering[|ordering| - 1].0 == IdColumn && DistinctIds(table)
    requires full == OrderBy(ordering, Filter(table, matching)) && k <= |full|
    requires forall i :: 0 <= i < k ==> !after(full[i])
    requires forall i :: k <= i < |full| ==> after(full[i])
    requires forall row :: both(row) <==> matching(row) && after(row)
    ensures OrderBy(ordering, Filter(table, both)) == full[k..]
  {
    FilterTwice(table, matching, after, both);
    FilterKeeps(table, matching);
    FilterOrderBy(ordering, Filter(table, matching), after);
    FilterIsRest(full, after, k);
  }

  /** A page behind the cursor of row k of the full list continues at row k + 1. */
  lemma {:induction false} PageContinues(fold: char -> char, table: seq<Account>, query: Query, k: nat)
    requires DistinctIds(table) && k < |FullList(fold, table, query)|
    ensures
      var full := FullList(fold, table, query);
      ListPage(fold, table, query.(cursor := Some(CursorAt(query.sort, full[k]))))
      == Slice(full, k + 1, LimitOf(query), query.sort)
  {
    var full := FullList(fold, table, query);
    var query' := query.(cursor := Some(CursorAt(query.sort, full[k])));
    FullListIsSelection(fold, table, query);
    CursorRoundTrip(query.sort, query.sort, full[k]);
    RowSplitsBehindItself(OrderingOf(query.sort), full, k);
    FullListIgnoresCursor(fold, table, query, query'.cursor);
    PageBeyondKey(fold, table, query', k + 1);
  }

  /** The list is sorted by a field for which the cursor holds no value, or there is no cursor. */
  ghost predicate IsIncomplete(query: Query) {
    || query.cursor.None?
    || exists i :: 0 <= i < |query.sort| && Lacks(query.cursor.value, query.sort[i].field)
  }

  predicate Lacks(cursor: Cursor, field: SortField) {
    match field
    case Currency => cursor.currency.None?
    case Status => cursor.status.None?
    case CreatedAt => cursor.createdAt.None?
  }

  lemma {:induction false} AcceptedIffComplete(query: Query)
    ensures Accepts(query.sort, query.cursor) <==> !IsIncomplete(query)
  {
    if query.cursor.Some? {
      assert forall i :: 0 <= i < |query.sort| ==>
          (CursorField(query.cursor.value, query.sort[i].field).None?
           <==> Lacks(query.cursor.value, query.sort[i].field));
    }
  }

  /**
   What any cursor does, wherever it comes from. If a sorted field is missing in it, the page is the first
   page. Otherwise the page is the start of exactly those rows of the full list that lie strictly after the
   cursor's key; the row the cursor was taken from need not be in the list, or in the table, any more.
   */
  lemma {:induction false} CursorMeaning(fold: char -> char, table: seq<Account>, query: Query)
    requires DistinctIds(table)
    ensures Accepts(query.sort, query.cursor) <==> !IsIncomplete(query)
    ensures IsIncomplete(query) ==> ListPage(fold, table, query) == ListPage(fold, table, query.(cursor := None))
    ensures !IsIncomplete(query) ==>
              exists k ::
                && SplitsAt(OrderingOf(query.sort), CursorKey(query.sort, query.cursor.value),
                            FullList(fold, table, query), k)
                && ListPage(fold, table, query) == Slice(FullList(fold, table, query), k, LimitOf(query), query.sort)
  {
    AcceptedIffComplete(query);
    if Accepts(query.sort, query.cursor) {
      FullListIsSelection(fold, table, query);
      var key := CursorKey(query.sort, query.cursor.value);
      var k := EveryKeySplits(OrderingOf(query.sort), key, FullList(fold, table, query));
      PageBeyondKey(fold, table, query, k);
    } else {
      UnacceptedCursorRestarts(fold, table, query);
    }
  }

  lemma {:induction false} UnacceptedCursorRestarts(fold: char -> char, table: seq<Account>, query: Query)
    requires !Accepts(query.sort, query.cursor)
    ensures ListPage(fold, table, query) == ListPage(fold, table, query.(cursor := None))
  {
    var query' := query.(cursor := None);
    FilterSame(table, row => AfterCursor(query, row) && Matches(fold, query, row),
               row => AfterCursor(query', row) && Matches(fold, query', row));
  }

  /**
   When a cursor leaves the page as it would be without one: if a sorted field is missing in it, if nothing
   is listed, or if even the first row of the list lies strictly after its key. Any other cursor, one issued
   under another direction or under more fields included, skips rows.
   */
  lemma {:induction false} CursorRestartsIff(fold: char -> char, table: seq<Account>, query: Query)
    requires DistinctIds(table)
    ensures
      var full := FullList(fold, table, query);
      ListPage(fold, table, query) == ListPage(fold, table, query.(cursor := None)) <==>
        || !Accepts(query.sort, query.cursor)
        || full == []
        || StrictlyAfter(OrderingOf(query.sort), CursorKey(query.sort, query.cursor.value), full[0])
  {
    if Accepts(query.sort, query.cursor) {
      var full := FullList(fold, table, query);
      FullListIsSelection(fold, table, query);
      FirstPage(fold, table, query);
      var k := EveryKeySplits(OrderingOf(query.sort), CursorKey(query.sort, query.cursor.value), full);
      PageBeyondKey(fold, table, query, k);
      SlicesDiffer(full, k, LimitOf(query), query.sort);
    } else {
      UnacceptedCursorRestarts(fold, table, query);
    }
  }

  lemma {:induction false} SlicesDiffer(full: seq<Account>, k: nat, limit: nat, sort: seq<SortRequest>)
    requires DistinctIds(full) && k <= |full| && limit >= 1
    ensures Slice(full, k, limit, sort) == Slice(full, 0, limit, sort) <==> k == 0
  {
    if 0 < k {
      assert Take(full[0..], limit)[0] == full[0];
      assert k < |full| ==> Take(full[k..], limit)[0] == full[k];
    }
  }

  /** A cursor taken from a list sorted the other way round is accepted, and the page has no row at all. */
  lemma {:induction false} OtherDirectionSkips(fold: char -> char)
    ensures
      var newer, older := Account(1.0, 0.0, 0.0, 5.0, None), Account(2.0, 0.0, 0.0, 4.0, None);
      var issued := CursorAt([SortRequest(CreatedAt, Desc)], newer);
      var query := Query([SortRequest(CreatedAt, Asc)], None, Some(issued), None, None, None, None, None);
      && ListPage(fold, [newer, older], query) == ([], None)
      && ListPage(fold, [newer, older], query.(cursor := None)).0 == [older, newer]
  {
    var newer, older := Account(1.0, 0.0, 0.0, 5.0, None), Account(2.0, 0.0, 0.0, 4.0, None);
    var sort, table := [SortRequest(CreatedAt, Asc)], [newer, older];
    var query := Query(sort, None, Some(CursorAt([SortRequest(CreatedAt, Desc)], newer)), None, None, None, None, None);
    var ordering := OrderingOf(sort);
    assert sort[1..] == [] && ordering == [(CreatedAtColumn, Asc), (IdColumn, Desc)];
    assert SortedBy([SortRequest(CreatedAt, Desc)], CreatedAt) by {
      assert [SortRequest(CreatedAt, Desc)][0].field == CreatedAt;
    }
    CursorKeyIs(sort, query.cursor.value, [5.0, 1.0]);
    FilterAll(table, row => Matches(fold, query, row));
    OlderFirst(ordering, newer, older);
    assert FullList(fold, table, query) == [older, newer];
    PageBeyondKey(fold, table, query, 2);
    FirstPage(fold, table, query);
  }

  lemma {:induction false} OlderFirst(ordering: Ordering, newer: Account, older: Account)
    requires ordering == [(CreatedAtColumn, Asc), (IdColumn, Desc)]
    requires newer.createdAt == 5.0 && newer.id == 1.0 && older.createdAt == 4.0 && older.id == 2.0
    ensures OrderBy(ordering, [newer, older]) == [older, newer]
    ensures !StrictlyAfter(ordering, [5.0, 1.0], newer) && !StrictlyAfter(ordering, [5.0, 1.0], older)
  {
    assert ordering[1..] == [(IdColumn, Desc)] && ordering[1..][1..] == [];
    assert !StrictlyAfter(ordering[1..], [5.0, 1.0][1..], newer);
    assert !Precedes(ordering, newer, older);
    assert [newer, older][1..] == [older] && [older][1..] == [];
    assert OrderBy(ordering, []) == [];
    assert OrderBy(ordering, [older]) == [older];
    assert Insert(ordering, newer, []) == [newer];
  }

  // ------------------------------------------------------------------ chained pages

  /** What a client gets that starts with a cursor and feeds each next cursor back until there is none. */
  predicate Chained(list: Option<Cursor> -> Page, cursor: Option<Cursor>, pages: seq<Page>)
    decreases |pages|
  {
    && pages != [] && pages[0] == list(cursor)
    && if |pages| == 1 then pages[0].1.None? else pages[0].1.Some? && Chained(list, pages[0].1, pages[1..])
  }

  function Concat(pages: seq<Page>): seq<Account> {
    if pages == [] then [] else pages[0].0 + Concat(pages[1..])
  }

  function PageCount(n: nat, limit: nat): nat
    requires limit >= 1
  {
    if n < limit then 1 else 1 + PageCount(n - limit, limit)
  }

  /** The list operation at any cursor, with everything else in the query fixed. */
  function ListFrom(fold: char -> char, table: seq<Account>, query: Query): Option<Cursor> -> Page {
    cursor => ListPage(fold, table, query.(cursor := cursor))
  }

  /** Behind the cursor of every row of the list, the page continues at the next row. */
  ghost predicate Continues(list: Option<Cursor> -> Page, full: seq<Account>, limit: nat, sort: seq<SortRequest>) {
    limit >= 1 && forall k :: 0 <= k < |full| ==> list(Some(CursorAt(sort, full[k]))) == Slice(full, k + 1, limit, sort)
  }

  lemma {:induction false} ListContinues(fold: char -> char, table: seq<Account>, query: Query)
    requires DistinctIds(table)
    ensures Continues(ListFrom(fold, table, query), FullList(fold, table, query), LimitOf(query), query.sort)
    ensures ListFrom(fold, table, query)(None) == Slice(FullList(fold, table, query), 0, LimitOf(query), query.sort)
  {
    var full := FullList(fold, table, query);
    forall k | 0 <= k < |full|
      ensures ListFrom(fold, table, query)(Some(CursorAt(query.sort, full[k])))
          == Slice(full, k + 1, LimitOf(query), query.sort)
    {
      PageContinues(fold, table, query, k);
    }
    FirstPage(fold, table, query);
  }

  lemma {:induction false} FirstPage(fold: char -> char, table: seq<Account>, query: Query)
    ensures ListPage(fold, table, query.(cursor := None))
        == Slice(FullList(fold, table, query), 0, LimitOf(query), query.sort)
  {
    var matching := (row: Account) => Matches(fold, query, row);
    var full := FullList(fold, table, query);
    FilterSame(table, matching, row => Matches(fold, query, row));
    assert full[0..] == full;
    PageOfSelection(fold, table, query.(cursor := None), full, 0, matching);
  }

  lemma {:induction false} ChainIsRest(list: Option<Cursor> -> Page, full: seq<Account>, limit: nat,
                                       sort: seq<SortRequest>,
                                       start: nat, cursor: Option<Cursor>, pages: seq<Page>)
    requires Continues(list, full, limit, sort) && start <= |full| && list(cursor) == Slice(full, start, limit, sort)
    requires Chained(list, cursor, pages)
    ensures Concat(pages) == full[start..] && |pages| == PageCount(|full| - start, limit)
    decreases |pages|
  {
    if start + limit <= |full| {
      assert pages[0].1 == Some(CursorAt(sort, full[start + limit - 1]));
      ChainIsRest(list, full, limit, sort, start + limit, pages[0].1, pages[1..]);
      TakeThenRest(full, start, limit);
    } else {
      assert pages[1..] == [];
    }
  }

  lemma {:induction false} TakeThenRest(full: seq<Account>, start: nat, limit: nat)
    requires start + limit <= |full|
    ensures Take(full[start..], limit) + full[start + limit..] == full[start..]
  {
    assert full[start..][..limit] == full[start..start + limit];
  }

  /**
   On a static table, whoever follows the cursors from the first page until there is none gets exactly
   floor(N / limit) + 1 pages, and they concatenate to the full filtered list in order.
   */
  lemma {:induction false} ChainedPagesRebuildTheList(fold: char -> char, table: seq<Account>, query: Query,
                                                      pages: seq<Page>)
    requires DistinctIds(table) && Chained(ListFrom(fold, table, query), None, pages)
    ensures Concat(pages) == FullList(fold, table, query)
    ensures |pages| == |FullList(fold, table, query)| / LimitOf(query) + 1
  {
    ListContinues(fold, table, query);
    ChainIsList(ListFrom(fold, table, query), FullList(fold, table, query), LimitOf(query), query.sort, pages);
  }

  lemma {:induction false} ChainIsList(list: Option<Cursor> -> Page, full: seq<Account>, limit: nat,
                                       sort: seq<SortRequest>, pages: seq<Page>)
    requires Continues(list, full, limit, sort) && list(None) == Slice(full, 0, limit, sort)
        && Chained(list, None, pages)
    ensures Concat(pages) == full && |pages| == |full| / limit + 1
  {
    ChainIsRest(list, full, limit, sort, 0, None, pages);
    PageCountIsQuotient(|full|, limit);
    assert full[0..] == full;
  }

  /** The page size a query asks for: its count, or 20 if it has none or zero. */
  ghost predicate AsksFor(query: Query, n: nat) {
    if query.count.Some? && query.count.value >= 1 then n == query.count.value else n == 20
  }

  /** Where in the full list the query's page begins: at its start, or at the first row beyond an accepted cursor. */
  ghost predicate BeginsAt(query: Query, full: seq<Account>, k: nat) {
    if Accepts(query.sort, query.cursor)
    then SplitsAt(OrderingOf(query.sort), CursorKey(query.sort, query.cursor.value), full, k)
    else k == 0
  }

  /** The cursor holds the row's id and the values of the fields the list is sorted by, and no others. */
  ghost predicate PointsAt(sort: seq<SortRequest>, cursor: Cursor, row: Account) {
    && cursor.id == row.id
    && cursor.currency ==
       (if exists i :: 0 <= i < |sort| && sort[i].field == Currency then Some(row.currency) else None)
    && cursor.status == (if exists i :: 0 <= i < |sort| && sort[i].field == Status then Some(row.status) else None)
    && cursor.createdAt ==
       (if exists i :: 0 <= i < |sort| && sort[i].field == CreatedAt then Some(row.createdAt) else None)
  }

  /** A page has as many rows as were asked for, as far as there are any, and a next cursor exactly when it is full. */
  lemma {:induction false} PageHasAskedSize(fold: char -> char, table: seq<Account>, query: Query, n: nat, k: nat)
    requires DistinctIds(table) && AsksFor(query, n) && BeginsAt(query, FullList(fold, table, query), k)
    ensures
      var full, (page, next) := FullList(fold, table, query), ListPage(fold, table, query);
      && k <= |full| && |page| == (if |full| - k < n then |full| - k else n) && page == full[k..k + |page|]
      && (next.Some? <==> |page| == n)
      && (next.Some? ==> PointsAt(query.sort, next.value, page[n - 1]))
  {
    if Accepts(query.sort, query.cursor) {
      PageBeyondKey(fold, table, query, k);
    } else {
      UnacceptedCursorRestarts(fold, table, query);
      FirstPage(fold, table, query);
    }
    SliceHasSize(FullList(fold, table, query), k, n, query.sort);
  }

  lemma {:induction false} SliceHasSize(full: seq<Account>, k: nat, n: nat, sort: seq<SortRequest>)
    requires k <= |full| && n >= 1
    ensures
      var (page, next) := Slice(full, k, n, sort);
      && |page| == (if |full| - k < n then |full| - k else n) && page == full[k..k + |page|]
      && (next.Some? <==> |page| == n)
      && (next.Some? ==> PointsAt(sort, next.value, page[n - 1]))
  {
  }

  /** In particular the page behind the cursor of row k, for every row of the list. */
  lemma {:induction false} NextPageHasAskedSize(fold: char -> char, table: seq<Account>, query: Query, n: nat, k: nat)
    requires DistinctIds(table) && AsksFor(query, n) && k < |FullList(fold, table, query)|
    ensures
      var full := FullList(fold, table, query);
      var (page, next) := ListPage(fold, table, query.(cursor := Some(CursorAt(query.sort, full[k]))));
      var rest := |full| - (k + 1);
      && |page| == (if rest < n then rest else n) && page == full[k + 1..k + 1 + |page|]
      && (next.Some? <==> |page| == n)
  {
    PageContinues(fold, table, query, k);
    SliceHasSize(FullList(fold, table, query), k + 1, n, query.sort);
  }

  /** The number of pages, for the page size the query asks for. */
  lemma {:induction false} ChainHasAskedLength(fold: char -> char, table: seq<Account>, query: Query, n: nat,
                                               pages: seq<Page>)
    requires DistinctIds(table) && AsksFor(query, n) && Chained(ListFrom(fold, table, query), None, pages)
    ensures |pages| == |FullList(fold, table, query)| / n + 1
  {
    assert n == LimitOf(query);
    ChainedPagesRebuildTheList(fold, table, query, pages);
  }

  /** And following the cursors always comes to an end. */
  lemma {:induction false} FollowingCursorsEnds(fold: char -> char, table: seq<Account>, query: Query)
    requires DistinctIds(table)
    ensures exists pages :: Chained(ListFrom(fold, table, query), None, pages)
  {
    ListContinues(fold, table, query);
    var list, full := ListFrom(fold, table, query), FullList(fold, table, query);
    var pages := ChainEnds(list, full, LimitOf(query), query.sort, 0, None);
  }

  lemma {:induction false} ChainEnds(list: Option<Cursor> -> Page, full: seq<Account>, limit: nat,
                                     sort: seq<SortRequest>,
                                     start: nat, cursor: Option<Cursor>) returns (pages: seq<Page>)
    requires Continues(list, full, limit, sort) && start <= |full| && list(cursor) == Slice(full, start, limit, sort)
    ensures Chained(list, cursor, pages)
    decreases |full| - start
  {
    pages := [list(cursor)];
    if start + limit <= |full| {
      var rest := ChainEnds(list, full, limit, sort, start + limit, list(cursor).1);
      pages := pages + rest;
      assert pages[1..] == rest;
    }
  }

  lemma {:induction false} PageCountIsQuotient(n: nat, limit: nat)
    requires limit >= 1
    ensures PageCount(n, limit) == n / limit + 1
  {
    if n >= limit {
      PageCountIsQuotient(n - limit, limit);
      var q := (n - limit) / limit;
      assert (q + 1) * limit == q * limit + limit;
      QuotientIs(n, limit, q + 1);
    } else {
      QuotientIs(n, limit, 0);
    }
  }

  lemma {:induction false} QuotientIs(n: nat, limit: nat, q: nat)
    requires limit >= 1 && q * limit <= n < q * limit + limit
    ensures n / limit == q
  {
    var d := n / limit;
    if d < q {
      SmallerProduct(d, q, limit);
    } else if q < d {
      SmallerProduct(q, d, limit);
    }
  }

  lemma {:induction false} SmallerProduct(a: nat, b: nat, limit: nat)
    requires a < b
    ensures a * limit + limit <= b * limit
  {
    if a + 1 < b {
      SmallerProduct(a, b - 1, limit);
    }
    assert b * limit == (b - 1) * limit + limit;
  }

  /** The full list has every matching account exactly once, strictly ordered by the sort with ties by id. */
  lemma {:induction false} FullListIsSelection(fold: char -> char, table: seq<Account>, query: Query)
    requires DistinctIds(table)
    ensures
      var full := FullList(fold, table, query);
      && InOrder(OrderingOf(query.sort), full) && DistinctIds(full)
      && forall row :: row in full <==> row in table && Matches(fold, query, row)
  {
    var full := FullList(fold, table, query);
    var matching := (row: Account) => Matches(fold, query, row);
    var selected := Filter(table, matching);
    FilterSame(table, matching, row => Matches(fold, query, row));
    OrderingEndsInId(query.sort);
    FilterKeeps(table, matching);
    OrderByInOrder(OrderingOf(query.sort), selected);
    InOrderIsDistinct(OrderingOf(query.sort), full, selected);
    forall row ensures row in full <==> row in table && Matches(fold, query, row) {
      assert row in full <==> row in multiset(full);
      assert row in selected <==> row in multiset(selected);
    }
  }

  function FieldOf(row: Account, field: SortField): Value {
    match field
    case Currency => row.currency
    case Status => row.status
    case CreatedAt => row.createdAt
  }

  /** The order asked for: by the first field in its direction, then by the next, and newest id first in the end. */
  predicate SortsBefore(sort: seq<SortRequest>, a: Account, b: Account) {
    if sort == [] then a.id > b.id
    else
      var x, y := FieldOf(a, sort[0].field), FieldOf(b, sort[0].field);
      if x == y then SortsBefore(sort[1..], a, b) else if sort[0].dir == Asc then x < y else x > y
  }

  lemma {:induction false} OrderingIsAsAsked(sort: seq<SortRequest>, a: Account, b: Account)
    ensures Precedes(OrderingOf(sort), a, b) <==> SortsBefore(sort, a, b)
  {
    var ordering := OrderingOf(sort);
    KeyTail(ordering, a);
    if sort == [] {
      assert ordering == [(IdColumn, Desc)] && ordering[1..] == [];
      assert !StrictlyAfter(ordering[1..], Key(ordering, a)[1..], b);
      assert Precedes(ordering, a, b) <==> (b.id != a.id && Beyond(Desc, b.id, a.id));
    } else {
      assert ordering[1..] == OrderingOf(sort[1..]);
      OrderingIsAsAsked(sort[1..], a, b);
    }
  }

  /** The list is sorted by the fields and in the directions the query asks for. */
  lemma {:induction false} ListIsSortedAsAsked(fold: char -> char, table: seq<Account>, query: Query, i: nat, j: nat)
    requires DistinctIds(table) && i < j < |FullList(fold, table, query)|
    ensures SortsBefore(query.sort, FullList(fold, table, query)[i], FullList(fold, table, query)[j])
  {
    FullListIsSelection(fold, table, query);
    OrderingIsAsAsked(query.sort, FullList(fold, table, query)[i], FullList(fold, table, query)[j]);
  }

  ghost predicate NameContains(fold: char -> char, name: Option<string>, text: string) {
    name.Some? && exists i :: LikeEscape.ReadsAt(fold, name.value, i, text)
  }

  /** In the caller's terms: the name contains the given text up to case, and the bounds are half-open. */
  ghost predicate FiltersHold(fold: char -> char, query: Query, row: Account) {
    && (query.name.None? || NameContains(fold, row.name, query.name.value))
    && (query.currency == None || query.currency == Some(row.currency))
    && (query.status == None || query.status == Some(row.status))
    && (query.createdAtFrom.Some? ==> !(row.createdAt < query.createdAtFrom.value))
    && (query.createdAtTo.Some? ==> row.createdAt < query.createdAtTo.value)
  }

  lemma {:induction false} MatchesMeans(fold: char -> char, query: Query, row: Account)
    requires LikeEscape.Folding(fold)
    ensures Matches(fold, query, row) <==> FiltersHold(fold, query, row)
  {
    if query.name.Some? && row.name.Some? {
      LikeEscape.FilterFindsText(fold, query.name.value, row.name.value);
    }
  }

  /** An account is in the list exactly when the table has it and the filters hold of it. */
  lemma {:induction false} ListedIffFiltersHold(fold: char -> char, table: seq<Account>, query: Query, row: Account)
    requires DistinctIds(table) && LikeEscape.Folding(fold)
    ensures row in FullList(fold, table, query) <==> row in table && FiltersHold(fold, query, row)
  {
    FullListIsSelection(fold, table, query);
    MatchesMeans(fold, query, row);
  }

  lemma {:induction false} InOrderIsDistinct(ordering: Ordering, sorted: seq<Account>, rows: seq<Account>)
    requires InOrder(ordering, sorted) && multiset(sorted) == multiset(rows) && DistinctIds(rows)
    ensures DistinctIds(sorted)
  {
    forall i, j | 0 <= i < j < |sorted| ensures sorted[i].id != sorted[j].id {
      assert sorted[i] in multiset(rows) && sorted[j] in multiset(rows);
      var k :| 0 <= k < |rows| && rows[k] == sorted[i];
      var l :| 0 <= l < |rows| && rows[l] == sorted[j];
      if k == l {
        PrecedesIrreflexive(ordering, sorted[i]);
      }
    }
  }
}
