/**
 The flush-time history recipe: compare every column with its loaded value, archive the loaded state
 under its version, bump the version, and update the row only if nobody else has.
 */
module VersionedHistory {
  import opened Wrappers
  import opened Ledger
  import opened Accounts

  datatype Column = CustomerIdColumn | CurrencyColumn | NameColumn | StatusColumn | UpdatedByColumn

  datatype Value = Null | Text(text: string) | Id(id: Uuid) | State(status: Status)

  const COLUMNS := [CustomerIdColumn, CurrencyColumn, NameColumn, StatusColumn, UpdatedByColumn]

  function NameValue(name: Option<string>): Value {
    match name case None => Null case Some(text) => Text(text)
  }

  function Columns(f: Fields): map<Column, Value> {
    map[CustomerIdColumn := Id(f.customerId), CurrencyColumn := Text(f.currency), NameColumn := NameValue(f.name),
        StatusColumn := State(f.status), UpdatedByColumn := Id(f.updatedBy)]
  }

  predicate Typed(m: map<Column, Value>) {
    && (forall c :: c in COLUMNS ==> c in m)
    && m[CustomerIdColumn].Id? && m[CurrencyColumn].Text? && (m[NameColumn].Null? || m[NameColumn].Text?)
    && m[StatusColumn].State? && m[UpdatedByColumn].Id?
  }

  function FromColumns(m: map<Column, Value>): Fields
    requires Typed(m)
  {
    Fields(m[CustomerIdColumn].id, m[CurrencyColumn].text,
           match m[NameColumn] { case Text(text) => Some(text) case _ => None },
           m[StatusColumn].status, m[UpdatedByColumn].id)
  }

  lemma {:induction false} EveryColumn(c: Column)
    ensures c in COLUMNS
  {
    match c
    case CustomerIdColumn => assert COLUMNS[0] == c;
    case CurrencyColumn => assert COLUMNS[1] == c;
    case NameColumn => assert COLUMNS[2] == c;
    case StatusColumn => assert COLUMNS[3] == c;
    case UpdatedByColumn => assert COLUMNS[4] == c;
  }

  /** Columns lose nothing: the state can be read back, so a column differs whenever the state does. */
  lemma {:induction false} ColumnsRoundTrip(f: Fields, m: map<Column, Value>)
    requires m.Keys == Columns(f).Keys && forall c :: c in COLUMNS ==> m[c] == Columns(f)[c]
    ensures m == Columns(f) && Typed(m) && FromColumns(m) == f
  {
    forall c ensures c in COLUMNS && c in m {
      EveryColumn(c);
    }
  }

  /** The three lists of an attribute's history, for a column with or without a loaded value. */
  datatype AttributeHistory = AttributeHistory(added: seq<Value>, kept: seq<Value>, removed: seq<Value>)

  function GetHistory(loaded: Option<Value>, current: Value): AttributeHistory {
    if loaded.None? then AttributeHistory([current], [], [])
    else if loaded.value == current then AttributeHistory([], [current], [])
    else AttributeHistory([current], [], [loaded.value])
  }

  datatype HistoryRow = HistoryRow(values: map<Column, Value>, version: int)

  class Instance {
    const loaded: map<Column, Value>
    const loadedVersion: int
    var current: map<Column, Value>
    var version: int

    constructor (values: map<Column, Value>, version: int)
      ensures loaded == values && current == values
      ensures loadedVersion == version && this.version == version
    {
      loaded, current := values, values;
      loadedVersion, this.version := version, version;
    }

    predicate Changed(c: Column)
      reads this
      requires c in current
    {
      c !in loaded || loaded[c] != current[c]
    }

    /** Archives every column as it was loaded, and bumps the version, exactly when something changed. */
    method CreateVersion(deleted: bool) returns (archived: Option<HistoryRow>)
      requires forall c :: c in COLUMNS ==> c in current
      modifies this`version
      ensures archived.Some? <==> deleted || exists c :: c in COLUMNS && Changed(c)
      ensures archived.None? ==> version == old(version)
      ensures archived.Some? ==>
                && version == old(version) + 1
                && archived.value.version == old(version)
                && archived.value.values.Keys == (set c | c in COLUMNS)
                && forall c :: c in COLUMNS ==>
                    archived.value.values[c] == if c in loaded then loaded[c] else current[c]
    {
      var attr: map<Column, Value> := map[];
      var changed := false;
      for i := 0 to |COLUMNS|
        invariant attr.Keys == set c | c in COLUMNS[..i]
        invariant forall c :: c in COLUMNS[..i] ==> attr[c] == if c in loaded then loaded[c] else current[c]
        invariant changed <==> exists c :: c in COLUMNS[..i] && Changed(c)
        invariant version == old(version)
      {
        var c := COLUMNS[i];
        assert COLUMNS[..i + 1] == COLUMNS[..i] + [c];
        var h := GetHistory(if c in loaded then Some(loaded[c]) else None, current[c]);
        if h.removed != [] {
          attr := attr[c := h.removed[0]];
          changed := true;
        } else if h.kept != [] {
          attr := attr[c := h.kept[0]];
        } else if h.added != [] {
          attr := attr[c := h.added[0]];
          changed := true;
        }
      }
      assert COLUMNS[..|COLUMNS|] == COLUMNS;
      if !changed && !deleted {
        return None;
      }
      archived := Some(HistoryRow(attr, version));
      version := version + 1;
    }
  }

  /** The flush: history row and UPDATE ... WHERE version = the loaded one; a miss is a stale-data error. */
  method Flush(db: Database, obj: Instance, archived: HistoryRow) returns (stale: bool)
    requires Typed(obj.current) && Typed(archived.values)
    modifies db
    ensures stale <==> old(db.account).None? || old(db.account).value.version != obj.loadedVersion
    ensures stale ==> db.Contents() == old(db.Contents())
    ensures !stale ==>
              && db.account == Some(Versioned(FromColumns(obj.current), obj.version))
              && db.history == old(db.history) + [Versioned(FromColumns(archived.values), archived.version)]
              && db.rows == old(db.rows)
  {
    if db.account.None? || db.account.value.version != obj.loadedVersion {
      return true;
    }
    db.history := db.history + [Versioned(FromColumns(archived.values), archived.version)];
    db.account := Some(Versioned(FromColumns(obj.current), obj.version));
    stale := false;
  }

  lemma {:induction false} SomeColumnDiffers(f: Fields, g: Fields)
    ensures f != g <==> exists c :: c in COLUMNS && Columns(f)[c] != Columns(g)[c]
  {
    if forall c :: c in COLUMNS ==> Columns(f)[c] == Columns(g)[c] {
      ColumnsRoundTrip(f, Columns(g));
      ColumnsRoundTrip(g, Columns(g));
    }
  }

  lemma {:induction false} ArchivedIsLoaded(f: Fields, values: map<Column, Value>)
    requires values.Keys == set c | c in COLUMNS
    requires forall c :: c in COLUMNS ==> values[c] == Columns(f)[c]
    ensures Typed(values) && FromColumns(values) == f
  {
    forall c ensures c in COLUMNS {
      EveryColumn(c);
    }
    assert values.Keys == Columns(f).Keys;
    ColumnsRoundTrip(f, values);
  }

  /** The assignments a handler makes on the loaded object. */
  method Assign(obj: Instance, ghost fields: Fields, edit: Edit)
    requires obj.current == Columns(fields)
    modifies obj`current
    ensures obj.current == Columns(Edited(fields, edit))
  {
    match edit {
      case Update(_, name, status, actor) =>
        if name.Some? {
          obj.current := obj.current[NameColumn := NameValue(name)];
        }
        if status.Some? {
          obj.current := obj.current[StatusColumn := State(status.value)];
        }
        obj.current := obj.current[UpdatedByColumn := Id(actor)];
      case Delete(_, actor) =>
        obj.current := obj.current[StatusColumn := State(Deleted)];
        obj.current := obj.current[UpdatedByColumn := Id(actor)];
    }
  }

  /** The before-flush hook and the flush of one dirty object. */
  method FlushSession(db: Database, obj: Instance, ghost loaded: Versioned, ghost fields: Fields)
    returns (outcome: Outcome)
    requires obj.loaded == Columns(loaded.fields) && obj.loadedVersion == obj.version == loaded.version
    requires obj.current == Columns(fields)
    modifies db, obj`version
    ensures outcome == Unchanged <==> fields == loaded.fields
    ensures outcome == Written || outcome == Unchanged || outcome == Rejected
    ensures outcome == Rejected ==> old(db.account).None? || old(db.account).value.version != loaded.version
    ensures outcome != Written ==> db.Contents() == old(db.Contents())
    ensures outcome == Written ==> old(db.account).Some? && old(db.account).value.version == loaded.version
    ensures outcome == Written ==>
              && db.account == Some(Versioned(fields, loaded.version + 1))
              && db.history == old(db.history) + [loaded] && db.rows == old(db.rows)
  {
    SomeColumnDiffers(loaded.fields, fields);
    var archived := obj.CreateVersion(false);
    if archived.None? {
      return Unchanged;
    }
    ColumnsRoundTrip(fields, obj.current);
    ArchivedIsLoaded(loaded.fields, archived.value.values);
    var stale := Flush(db, obj, archived.value);
    outcome := if stale then Rejected else Written;
  }
}
