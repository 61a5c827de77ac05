/**
 Requests over database sessions. A request gets a repository over one session and a transaction over
 another; only the transaction is committed, and only if nothing was raised. The deployed dependencies hand
 out two sessions, the tests' overrides one.
 */
module Sessions {
  import opened Wrappers
  import opened Ledger
  import opened Accounts
  import opened LedgerVerification
  import LedgerWindow
  import opened VersionedHistory

  /** What every other transaction sees: one account with its history and ledger, and the verifier's books. */
  class Tables {
    var store: Store
    var books: map<Uuid, Book>

    constructor (store: Store, books: map<Uuid, Book>)
      ensures this.store == store && this.books == books
    {
      this.store, this.books := store, books;
    }
  }

  datatype Error = AlreadyAttached | Refused(reason: ResolveError)

  /** A session sees the committed tables and its own writes, which nobody else sees until it commits. */
  class Session {
    const tables: Tables
    const accounts: Database
    const repository: Repository

    constructor (tables: Tables)
      ensures this.tables == tables && fresh(accounts) && fresh(repository)
      ensures accounts.Contents() == tables.store && repository.books == tables.books
    {
      this.tables := tables;
      accounts := new Database();
      repository := new Repository();
      new;
      accounts.account := tables.store.account;
      accounts.history, accounts.rows := tables.store.history, tables.store.rows;
      repository.books := tables.books;
    }

    method Commit()
      modifies tables
      ensures tables.store == accounts.Contents() && tables.books == repository.books
    {
      tables.store, tables.books := accounts.Contents(), repository.books;
    }

    /** `session.add`: an object stays with the session that loaded it for as long as that one is open. */
    method Add(entity: Attached) returns (r: Result<(), Error>)
      ensures r == if entity.owner == this then Ok(()) else Err(AlreadyAttached)
    {
      r := if entity.owner == this then Ok(()) else Err(AlreadyAttached);
    }
  }

  /** A loaded object and the session that loaded it. */
  datatype Attached = Attached(instance: Instance, owner: Session)

  // ------------------------------------------------------------------ the handlers

  /** The update and delete handlers: load through the repository, check the token, assign, add, flush. */
  method EditAccount(repo: Session, session: Session, id: Uuid, edit: Edit) returns (r: Result<Outcome, Error>)
    requires repo.accounts.Contents() == session.accounts.Contents()
    modifies session.accounts
    ensures repo == session || !Decide(id, old(session.accounts.account), edit).Write? ==>
              r.Ok? && (session.accounts.Contents(), r.value) == Revise(id, old(session.accounts.Contents()), edit)
    ensures repo == session ==>
              r.Ok? && EditMeans(id, old(session.accounts.Contents()), edit, session.accounts.Contents(), r.value)
    ensures repo != session && Decide(id, old(session.accounts.account), edit).Write? ==>
              r == Err(AlreadyAttached) && session.accounts.Contents() == old(session.accounts.Contents())
  {
    EditDoesAsAsked(id, session.accounts.Contents(), edit);
    if repo.accounts.account.None? || repo.accounts.account.value.fields.status == Deleted {
      return Ok(Rejected);
    }
    var loaded := repo.accounts.account.value;
    if edit.token != Token(id, loaded.version) {
      return Ok(Rejected);
    }
    var account := new Instance(Columns(loaded.fields), loaded.version);
    Assign(account, loaded.fields, edit);
    var added := session.Add(Attached(account, repo));
    if added.Err? {
      return Err(added.error);
    }
    var outcome := FlushSession(session.accounts, account, loaded, Edited(loaded.fields, edit));
    r := Ok(outcome);
  }

  // ------------------------------------------------------------------ whole requests

  datatype Wiring = OneSession | TwoSessions

  /** What an edit request leaves in the tables, and what it answers. */
  function EditEffect(wiring: Wiring, id: Uuid, store: Store, edit: Edit): (Store, Result<Outcome, Error>) {
    var (revised, outcome) := Revise(id, store, edit);
    if wiring.TwoSessions? && Decide(id, store.account, edit).Write? then (store, Err(AlreadyAttached))
    else (revised, Ok(outcome))
  }

  /** What a resolve request leaves in the account's book, and what it answers. */
  function ResolveEffect(wiring: Wiring, rows: seq<Row>, book: Book, requested: Option<int>, resolver: Uuid, now: int)
    : (Book, Result<(), Error>)
  {
    match Resolve(rows, book, requested, resolver, now)
    case Err(reason) => (book, Err(Refused(reason)))
    case Ok(resolved) => (if wiring.OneSession? then resolved else book, Ok(()))
  }

  method OpenSessions(tables: Tables, wiring: Wiring) returns (repo: Session, session: Session)
    ensures fresh(session) && fresh(session.accounts) && fresh(session.repository) && session.tables == tables
    ensures fresh(repo) && fresh(repo.accounts) && fresh(repo.repository)
    ensures session.accounts.Contents() == repo.accounts.Contents() == tables.store
    ensures session.repository.books == repo.repository.books == tables.books
    ensures if wiring.OneSession? then repo == session else repo != session && repo.repository != session.repository
  {
    session := new Session(tables);
    repo := session;
    if wiring.TwoSessions? {
      repo := new Session(tables);
    }
  }

  /** An edit from opening the sessions to closing them; an error or a refusal rolls the transaction back. */
  method EditRequest(tables: Tables, wiring: Wiring, id: Uuid, edit: Edit) returns (r: Result<Outcome, Error>)
    modifies tables
    ensures (tables.store, r) == EditEffect(wiring, id, old(tables.store), edit)
    ensures wiring.OneSession? ==> r.Ok? && EditMeans(id, old(tables.store), edit, tables.store, r.value)
    ensures wiring.TwoSessions? ==>
              && tables.store == old(tables.store)
              && r == if IsCurrent(id, tables.store, edit.token) then Err(AlreadyAttached) else Ok(Rejected)
    ensures tables.books == old(tables.books)
  {
    EditDoesAsAsked(id, tables.store, edit);
    var repo, session := OpenSessions(tables, wiring);
    r := EditAccount(repo, session, id, edit);
    if r.Ok? && r.value != Rejected {
      session.Commit();
    }
  }

  /** A resolve likewise: the repository's session writes, the transaction's session commits. */
  method ResolveRequest(tables: Tables, wiring: Wiring, accountId: Uuid, requested: Option<int>, resolver: Uuid,
                        now: int)
    returns (r: Result<(), Error>)
    modifies tables
    ensures (BookOf(tables.books, accountId), r)
            == ResolveEffect(wiring, old(tables.store).rows, BookOf(old(tables.books), accountId),
                             requested, resolver, now)
    ensures forall a :: a != accountId ==> BookOf(tables.books, a) == BookOf(old(tables.books), a)
    ensures tables.store == old(tables.store)
  {
    var repo, session := OpenSessions(tables, wiring);
    var resolved := repo.repository.ResolveDiscrepancy(repo.accounts.rows, accountId, requested, resolver, now);
    if resolved.Err? {
      return Err(Refused(resolved.error));
    }
    session.Commit();
    r := Ok(());
  }

  // ------------------------------------------------------------------ when a request takes effect

  /** An edit that changes something under a current token reaches the tables exactly over one session. */
  lemma {:induction false} EditTakesEffectIff(wiring: Wiring, id: Uuid, store: Store, edit: Edit)
    requires IsCurrent(id, store, edit.token)
    requires !AsAsked(store.account.value.fields, edit, store.account.value.fields)
    ensures EditEffect(wiring, id, store, edit).0 != store <==> wiring == OneSession
    ensures EditEffect(wiring, id, store, edit).1 == if wiring.OneSession? then Ok(Written) else Err(AlreadyAttached)
  {
    EditDoesAsAsked(id, store, edit);
    var revised := Revise(id, store, edit).0;
    assert |revised.history| == |store.history| + 1;
  }

  /**
   A resolve is accepted under either wiring, but it reaches the tables, and lifts the quarantine, exactly
   when both sessions are the same.
   */
  lemma {:induction false} ResolveTakesEffectIff(wiring: Wiring, rows: seq<Row>, book: Book, requested: Option<int>,
                                                 resolver: Uuid, now: int)
    requires BookOk(book) && Resolve(rows, book, requested, resolver, now).Ok?
    ensures
      var (book', answer) := ResolveEffect(wiring, rows, book, requested, resolver, now);
      && answer == Ok(())
      && (book' != book <==> wiring == OneSession)
      && (Quarantined(book') <==> wiring == TwoSessions)
  {
    ResolveAdvances(rows, book, requested, resolver, now);
  }

  datatype Call = EditCall(edit: Edit) | ResolveCall(requested: Option<int>, resolver: Uuid, now: int)

  function Serve(wiring: Wiring, id: Uuid, store: Store, book: Book, calls: seq<Call>): (Store, Book) {
    if calls == [] then (store, book)
    else
      var (store', book') := Serve(wiring, id, store, book, calls[..|calls| - 1]);
      match calls[|calls| - 1]
      case EditCall(edit) => (EditEffect(wiring, id, store', edit).0, book')
      case ResolveCall(requested, resolver, now) =>
        (store', ResolveEffect(wiring, store'.rows, book', requested, resolver, now).0)
  }

  /** Over two sessions no series of edits and resolves, accepted or not, ever changes the tables. */
  lemma {:induction false} TwoSessionsChangeNothing(id: Uuid, store: Store, book: Book, calls: seq<Call>)
    ensures Serve(TwoSessions, id, store, book, calls) == (store, book)
  {
    if calls != [] {
      TwoSessionsChangeNothing(id, store, book, calls[..|calls| - 1]);
    }
  }

  /** A quarantined account with a gap: the resolve answers success, and the account stays quarantined. */
  lemma {:induction false} AcceptedResolveIsLost(id: Uuid, resolver: Uuid)
    ensures
      var rows := [Create(id), Row(id, 3, 100, 100, OpDeposit, 7)];
      var book := Book([Checkpoint(1, 0, 10)], [Incident(3, LedgerWindow.Gap, 1, None, 100, 20, None, None)]);
      && ResolveEffect(TwoSessions, rows, book, None, resolver, 30) == (book, Ok(())) && Quarantined(book)
      && !Quarantined(ResolveEffect(OneSession, rows, book, None, resolver, 30).0)
  {
    var rows := [Create(id), Row(id, 3, 100, 100, OpDeposit, 7)];
    var book := Book([Checkpoint(1, 0, 10)], [Incident(3, LedgerWindow.Gap, 1, None, 100, 20, None, None)]);
    LatestIsLast(book.checkpoints);
    assert BookOk(book);
    assert rows[1].no == 3 && book.incidents[0].resolvedAt.None?;
    DefaultResolve(rows, book, 0, resolver, 30);
    ResolveTakesEffectIff(TwoSessions, rows, book, None, resolver, 30);
    ResolveTakesEffectIff(OneSession, rows, book, None, resolver, 30);
  }

  /** An active account renamed under its current token: over two sessions an error, over one a new version. */
  lemma {:induction false} AcceptedEditIsLost(id: Uuid, fields: Fields, actor: Uuid)
    requires fields.status == Active && fields.name == None
    ensures
      var store := Store(Some(Versioned(fields, 1)), [], [Create(id)]);
      var edit := Update(Token(id, 1), Some("new"), None, actor);
      && EditEffect(TwoSessions, id, store, edit) == (store, Err(AlreadyAttached))
      && EditEffect(OneSession, id, store, edit).1 == Ok(Written)
      && EditEffect(OneSession, id, store, edit).0.account.value.version == 2
  {
    assert Edited(fields, Update(Token(id, 1), Some("new"), None, actor)).name != fields.name;
  }
}
