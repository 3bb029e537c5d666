/** The transaction scope of internal/usecase/repository/transactor.go.

    A context may carry a transaction. Here the context is part of the
    `World`: the committed database plus the transaction the current context
    carries, if any. An active transaction is a snapshot of the database that
    statements update; a successful commit replaces the database with it, a
    failed commit or a rollback discards it. Either way the transaction is
    then closed, and pgx refuses further statements on a closed transaction
    with `ErrTxClosed`. */
module Transactor {
  import opened Wrappers
  import opened Errors
  import opened Tables

  datatype Tx = Active(work: Db) | Closed

  datatype World = World(db: Db, tx: Option<Tx>)

  /** What a function run under a context returns: the world afterwards, the
      value it computed (Go: a variable the closure assigned) and its error. */
  datatype Run<T> = Run(w: World, value: T, err: Option<Error>)

  const InjectPrefix: string := "cannot inject tx"
  const ExecPrefix: string := "function execution error"

  /** `extractTX`: the transaction the context carries, or `ErrTxNotFound`. */
  function ExtractTx(w: World): (r: Result<Tx, Error>)
    ensures r.Fail? <==> w.tx.None?
    ensures r.Fail? ==> r.error == Known(TxNotFound)
    ensures r.Ok? ==> w.tx == Some(r.value)
  {
    match w.tx
    case None => Fail(Known(TxNotFound))
    case Some(t) => Ok(t)
  }

  /** `injectTx`: reuse the context's transaction, or begin one (`begin` is
      the outcome of `pool.Begin`) and attach it to the context. */
  function InjectTx(w: World, begin: Option<Error>): (r: Result<World, Error>)
    ensures w.tx.Some? ==> r == Ok(w)
    ensures w.tx.None? && begin.None? ==> r == Ok(World(w.db, Some(Active(w.db))))
    ensures w.tx.None? && begin.Some? ==> r == Fail(begin.value)
  {
    match ExtractTx(w)
    case Ok(_) => Ok(w)
    case Fail(_) =>
      if begin.Some? then Fail(begin.value) else Ok(World(w.db, Some(Active(w.db))))
  }

  /** The state a statement issued under this context reads: the working copy
      of the context's transaction, or the committed database when there is none. */
  function Current(w: World): (r: Result<Db, Error>)
    ensures r.Fail? <==> w.tx == Some(Closed)
    ensures r.Fail? ==> r.error == Known(TxClosed)
  {
    match w.tx
    case None => Ok(w.db)
    case Some(Active(work)) => Ok(work)
    case Some(Closed) => Fail(Known(TxClosed))
  }

  /** Write the state a successful statement leaves: into the transaction's
      working copy, or straight into the database (autocommit) without one. */
  function Store(w: World, d: Db): (r: World)
    ensures r.tx.None? <==> w.tx.None?
    ensures w.tx.Some? ==> r.db == w.db
    ensures w.tx.Some? && w.tx.value.Active? ==> r.tx == Some(Active(d))
    ensures w.tx.None? ==> r.db == d
    ensures Current(w).Ok? ==> Current(r) == Ok(d)
  {
    match w.tx
    case None => World(d, None)
    case Some(Active(_)) => World(w.db, Some(Active(d)))
    case Some(Closed) => w
  }

  /** `tx.Commit`, whose outcome is `commit`: on success the working copy
      becomes the database, on failure nothing is stored. Either way the
      transaction is closed; on a closed one Commit changes nothing. The
      callers of `WithTx`, `CreateBook` and `CreateAuthor` discard its error. */
  function Commit(w: World, commit: Option<Error>): World
  {
    match w.tx
    case Some(Active(work)) => if commit.None? then World(work, Some(Closed)) else World(w.db, Some(Closed))
    case _ => w
  }

  /** `tx.Rollback`; on a closed transaction it fails, and every caller ignores that. */
  function Rollback(w: World): World
  {
    match w.tx
    case Some(Active(_)) => World(w.db, Some(Closed))
    case _ => w
  }

  /** `WithTx`: run `fn` under a context that carries a transaction, then roll
      back if it returned an error and commit otherwise. The caller's context
      is handed back: without a transaction if it had none, and sharing the
      (now ended) transaction if `fn` ran inside the caller's one. `zero` is
      the value of the closure's variables when `fn` never runs. `commit` is
      the outcome of the deferred commit, whose error is dropped: the result
      is nil whenever `fn` succeeded. */
  function WithTx<T>(w: World, begin: Option<Error>, commit: Option<Error>, fn: World -> Run<T>, zero: T): (r: Run<T>)
    ensures w.tx.None? ==> r.w.tx.None?
    ensures r.err.Some? ==> r.err.value.Wrapped?
    ensures r.err.None? <==> (w.tx.Some? || begin.None?) && fn(InjectTx(w, begin).value).err.None?
  {
    match InjectTx(w, begin)
    case Fail(e) => Run(w, zero, Some(Wrapped(InjectPrefix, e)))
    case Ok(inner) =>
      var done := fn(inner);
      var ended := if done.err.Some? then Rollback(done.w) else Commit(done.w, commit);
      var back := if w.tx.None? then World(ended.db, None) else ended;
      if done.err.Some? then Run(back, done.value, Some(Wrapped(ExecPrefix, done.err.value)))
      else Run(back, done.value, None)
  }

  /** If no transaction can be begun, `fn` never runs and nothing changes. */
  lemma WithTxBeginFailure<T>(w: World, e: Error, commit: Option<Error>, fn: World -> Run<T>, zero: T)
    requires w.tx.None?
    ensures WithTx(w, Some(e), commit, fn, zero) == Run(w, zero, Some(Wrapped(InjectPrefix, e)))
  {
  }

  /** A top-level scope whose function fails is rolled back: nothing it wrote
      through the transaction survives, and the error it returns still
      matches every sentinel the function's error matched. */
  lemma WithTxRollsBack<T>(w: World, commit: Option<Error>, fn: World -> Run<T>, zero: T)
    requires w.tx.None?
    requires fn(World(w.db, Some(Active(w.db)))).err.Some?
    ensures var inner := fn(World(w.db, Some(Active(w.db))));
      var r := WithTx(w, None, commit, fn, zero);
      && r.w == World(inner.w.db, None)
      && r.err == Some(Wrapped(ExecPrefix, inner.err.value))
      && (forall s :: Is(r.err.value, s) <==> Is(inner.err.value, s))
  {
  }

  /** A top-level scope whose function succeeds commits its working copy
      when the commit goes through. */
  lemma WithTxCommits<T>(w: World, fn: World -> Run<T>, zero: T, work: Db)
    requires w.tx.None?
    requires fn(World(w.db, Some(Active(w.db)))).err.None?
    requires fn(World(w.db, Some(Active(w.db)))).w.tx == Some(Active(work))
    ensures WithTx(w, None, None, fn, zero).w == World(work, None)
    ensures WithTx(w, None, None, fn, zero).err.None?
  {
  }

  /** When the commit fails, the scope still reports success, but nothing
      its function wrote through the transaction is stored. */
  lemma WithTxCommitLost<T>(w: World, e: Error, fn: World -> Run<T>, zero: T)
    requires w.tx.None?
    requires fn(World(w.db, Some(Active(w.db)))).err.None?
    ensures var inner := fn(World(w.db, Some(Active(w.db))));
      var r := WithTx(w, None, Some(e), fn, zero);
      && r == Run(World(inner.w.db, None), inner.value, None)
  {
  }

  /** A nested scope reuses the caller's transaction and ends it when its own
      function returns: committed on success, rolled back on error. The
      caller keeps a context whose transaction is closed. */
  lemma WithTxNestedEndsOuter<T>(w: World, begin: Option<Error>, commit: Option<Error>,
                                 fn: World -> Run<T>, zero: T, work: Db)
    requires w.tx.Some? && w.tx.value.Active?
    requires fn(w).w.tx == Some(Active(work))
    ensures var r := WithTx(w, begin, commit, fn, zero);
      && r.w.tx == Some(Closed)
      && r.w.db == (if fn(w).err.None? && commit.None? then work else fn(w).w.db)
      && Current(r.w) == Fail(Known(TxClosed))
  {
  }

  /** `CreateBook` and `CreateAuthor` in postgres.go: use the context's
      transaction and leave it open, or else begin one of their own and
      commit it when `body` succeeds, dropping the commit's error. `zero` is
      returned when no transaction can be begun. */
  function AmbientOrOwn<T>(w: World, begin: Option<Error>, commit: Option<Error>, body: World -> Run<T>, zero: T): (r: Run<T>)
    ensures w.tx.Some? ==> r == body(w)
    ensures w.tx.None? ==> r.w.tx.None?
    ensures w.tx.None? && begin.None? ==> r.err == body(World(w.db, Some(Active(w.db)))).err
  {
    match ExtractTx(w)
    case Ok(_) => body(w)
    case Fail(_) =>
      if begin.Some? then Run(w, zero, begin)
      else
        var done := body(World(w.db, Some(Active(w.db))));
        var ended := if done.err.Some? then Rollback(done.w) else Commit(done.w, commit);
        Run(World(ended.db, None), done.value, done.err)
  }
}
