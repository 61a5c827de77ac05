/**
 The keyset condition behind the cursor: an OR of ANDs built column by column, and the ORDER BY
 relation it has to agree with. A column's values are compared by order only; every countable
 ordered set (texts under a collation, instants, UUIDs) embeds in the reals.
 */
module CursorOrder {
  import opened Wrappers

  type Value = real

  datatype Direction = Asc | Desc

  datatype Column = CurrencyColumn | StatusColumn | CreatedAtColumn | IdColumn

  datatype Account = Account(id: Value, currency: Value, status: Value, createdAt: Value, name: Option<string>)

  function Get(row: Account, column: Column): Value {
    match column
    case CurrencyColumn => row.currency
    case StatusColumn => row.status
    case CreatedAtColumn => row.createdAt
    case IdColumn => row.id
  }

  type Ordering = seq<(Column, Direction)>

  datatype Condition =
    | Equals(column: Column, value: Value)
    | Greater(column: Column, value: Value)
    | Less(column: Column, value: Value)
    | And(all: seq<Condition>)
    | Or(some: seq<Condition>)

  predicate Eval(condition: Condition, row: Account) {
    match condition
    case Equals(column, value) => Get(row, column) == value
    case Greater(column, value) => Get(row, column) > value
    case Less(column, value) => Get(row, column) < value
    case And(all) => forall c :: c in all ==> Eval(c, row)
    case Or(some) => exists c :: c in some && Eval(c, row)
  }

  function Comparison(column: Column, direction: Direction, value: Value): Condition {
    if direction == Asc then Greater(column, value) else Less(column, value)
  }

  function Equalities(ordering: Ordering, values: seq<Value>): seq<Condition>
    requires |ordering| == |values|
  {
    seq(|ordering|, i requires 0 <= i < |ordering| && |ordering| == |values| => Equals(ordering[i].0, values[i]))
  }

  function Alternative(ordering: Ordering, values: seq<Value>, i: nat): Condition
    requires |ordering| == |values| && i < |ordering|
  {
    And(Equalities(ordering[..i], values[..i]) + [Comparison(ordering[i].0, ordering[i].1, values[i])])
  }

  datatype Error = LengthsDiffer

  /** Builds the disjunction in a loop over the ordering; zip is strict about the lengths. */
  method BuildCursorCondition(ordering: Ordering, values: seq<Value>) returns (r: Result<Condition, Error>)
    ensures |ordering| != |values| ==> r == Err(LengthsDiffer)
    ensures |ordering| == |values| ==>
              r.Ok? && forall row :: Eval(r.value, row) <==> StrictlyAfter(ordering, values, row)
  {
    if |ordering| != |values| {
      return Err(LengthsDiffer);
    }
    var alternatives: seq<Condition> := [];
    for index := 0 to |ordering|
      invariant |alternatives| == index
      invariant forall i :: 0 <= i < index ==> alternatives[i] == Alternative(ordering, values, i)
    {
      var preceding := Equalities(ordering[..index], values[..index]);
      var comparison := Comparison(ordering[index].0, ordering[index].1, values[index]);
      alternatives := alternatives + [And(preceding + [comparison])];
    }
    r := Ok(Or(alternatives));
    forall row ensures Eval(r.value, row) <==> StrictlyAfter(ordering, values, row) {
      ConditionIsOrder(ordering, values, alternatives, row);
    }
  }

  // ------------------------------------------------------------------ the ORDER BY relation

  predicate Beyond(direction: Direction, x: Value, y: Value) {
    if direction == Asc then x > y else x < y
  }

  /** The row sorts strictly after the key: the first column that differs decides. */
  predicate StrictlyAfter(ordering: Ordering, key: seq<Value>, row: Account)
    requires |ordering| == |key|
  {
    if ordering == [] then false
    else if Get(row, ordering[0].0) == key[0] then StrictlyAfter(ordering[1..], key[1..], row)
    else Beyond(ordering[0].1, Get(row, ordering[0].0), key[0])
  }

  function Key(ordering: Ordering, row: Account): (key: seq<Value>)
    ensures |key| == |ordering|
  {
    seq(|ordering|, i requires 0 <= i < |ordering| => Get(row, ordering[i].0))
  }

  predicate Precedes(ordering: Ordering, a: Account, b: Account) {
    StrictlyAfter(ordering, Key(ordering, a), b)
  }

  /** Column i is the first one in which the row differs from the key, and there it lies beyond. */
  ghost predicate DecidedAt(ordering: Ordering, key: seq<Value>, row: Account, i: int)
    requires |ordering| == |key|
  {
    && 0 <= i < |ordering|
    && (forall j :: 0 <= j < i ==> Get(row, ordering[j].0) == key[j])
    && Beyond(ordering[i].1, Get(row, ordering[i].0), key[i])
  }

  lemma {:induction false} AlternativeMeans(ordering: Ordering, values: seq<Value>, i: nat, row: Account)
    requires |ordering| == |values| && i < |ordering|
    ensures Eval(Alternative(ordering, values, i), row) <==> DecidedAt(ordering, values, row, i)
  {
    var comparison := Comparison(ordering[i].0, ordering[i].1, values[i]);
    var all := Equalities(ordering[..i], values[..i]) + [comparison];
    assert all[i] == comparison && forall j :: 0 <= j < i ==> all[j] == Equals(ordering[j].0, values[j]);
    if Eval(And(all), row) {
      assert Eval(all[i], row);
      forall j | 0 <= j < i ensures Get(row, ordering[j].0) == values[j] {
        assert all[j] in all && Eval(all[j], row);
      }
    }
    if DecidedAt(ordering, values, row, i) {
      forall c | c in all ensures Eval(c, row) {
        var j :| 0 <= j <= i && all[j] == c;
      }
    }
  }

  lemma {:induction false} FirstDifferenceDecides(ordering: Ordering, key: seq<Value>, row: Account)
    requires |ordering| == |key|
    ensures StrictlyAfter(ordering, key, row) <==> exists i :: DecidedAt(ordering, key, row, i)
  {
    if ordering != [] {
      FirstDifferenceDecides(ordering[1..], key[1..], row);
      if Get(row, ordering[0].0) == key[0] {
        forall i ensures DecidedAt(ordering, key, row, i) <==> DecidedAt(ordering[1..], key[1..], row, i - 1) {
          if DecidedAt(ordering[1..], key[1..], row, i - 1) {
            forall j | 0 <= j < i ensures Get(row, ordering[j].0) == key[j] {
              assert j > 0 ==> ordering[1..][j - 1] == ordering[j] && key[1..][j - 1] == key[j];
            }
          }
        }
        if i :| DecidedAt(ordering[1..], key[1..], row, i) {
          assert DecidedAt(ordering, key, row, i + 1);
        }
      } else if Beyond(ordering[0].1, Get(row, ordering[0].0), key[0]) {
        assert DecidedAt(ordering, key, row, 0);
      }
    }
  }

  /** The generated OR of ANDs holds of a row exactly when the row comes strictly after the cursor. */
  lemma {:induction false} ConditionIsOrder(ordering: Ordering, values: seq<Value>, alternatives: seq<Condition>,
                                            row: Account)
    requires |ordering| == |values| == |alternatives|
    requires forall i :: 0 <= i < |ordering| ==> alternatives[i] == Alternative(ordering, values, i)
    ensures Eval(Or(alternatives), row) <==> StrictlyAfter(ordering, values, row)
  {
    FirstDifferenceDecides(ordering, values, row);
    forall i | 0 <= i < |ordering|
      ensures Eval(alternatives[i], row) <==> DecidedAt(ordering, values, row, i)
    {
      AlternativeMeans(ordering, values, i, row);
    }
    if i :| DecidedAt(ordering, values, row, i) {
      assert alternatives[i] in alternatives;
    }
  }

  // ------------------------------------------------------------------ a strict total order

  lemma {:induction false} KeyTail(ordering: Ordering, row: Account)
    requires ordering != []
    ensures Key(ordering, row)[0] == Get(row, ordering[0].0)
    ensures Key(ordering, row)[1..] == Key(ordering[1..], row)
  {
  }

  lemma {:induction false} PrecedesIrreflexive(ordering: Ordering, a: Account)
    ensures !Precedes(ordering, a, a)
  {
    if ordering != [] {
      KeyTail(ordering, a);
      PrecedesIrreflexive(ordering[1..], a);
    }
  }

  /** What sorts after a row that lies beyond a key lies beyond that key too, whether or not the key is some row's. */
  lemma {:induction false} BeyondIsUpward(ordering: Ordering, key: seq<Value>, a: Account, b: Account)
    requires |ordering| == |key| && StrictlyAfter(ordering, key, a) && Precedes(ordering, a, b)
    ensures StrictlyAfter(ordering, key, b)
  {
    KeyTail(ordering, a);
    var column := ordering[0].0;
    if Get(a, column) == key[0] == Get(b, column) {
      BeyondIsUpward(ordering[1..], key[1..], a, b);
    }
  }

  lemma {:induction false} PrecedesTransitive(ordering: Ordering, a: Account, b: Account, c: Account)
    requires Precedes(ordering, a, b) && Precedes(ordering, b, c)
    ensures Precedes(ordering, a, c)
  {
    BeyondIsUpward(ordering, Key(ordering, a), b, c);
  }

  /** With the id as the last column, two rows with different ids are always ordered one way. */
  lemma {:induction false} PrecedesTotal(ordering: Ordering, a: Account, b: Account)
    requires ordering != [] && ordering[|ordering| - 1].0 == IdColumn && a.id != b.id
    ensures Precedes(ordering, a, b) <==> !Precedes(ordering, b, a)
  {
    KeyTail(ordering, a);
    KeyTail(ordering, b);
    if |ordering| > 1 && Get(a, ordering[0].0) == Get(b, ordering[0].0) {
      PrecedesTotal(ordering[1..], a, b);
    }
  }
}
