/** `convertError` of internal/controller/util.go: how a use-case error
    becomes a gRPC status. */
module Controller {
  import opened Wrappers
  import opened Errors
  import opened Tables
  import opened Transactor
  import Postgres
  import Library

  datatype Code = NotFound | Internal

  /** `status.Error(code, message)` */
  datatype Status = Status(code: Code, message: string)

  /** Not-found sentinels anywhere in the chain give NotFound; everything
      else is Internal. The message is the error's text either way. */
  function ConvertError(e: Error): (r: Status)
    ensures r.code == NotFound <==> Is(e, AuthorNotFound) || Is(e, BookNotFound)
    ensures r.message == Text(e)
  {
    if Is(e, AuthorNotFound) then Status(NotFound, Text(e))
    else if Is(e, BookNotFound) then Status(NotFound, Text(e))
    else Status(Internal, Text(e))
  }

  /** The code depends only on which sentinels the chain holds. */
  lemma ConvertErrorByChain(e: Error)
    ensures ConvertError(e).code == NotFound <==>
      Known(AuthorNotFound) in Chain(e) || Known(BookNotFound) in Chain(e)
  {
    IsMeansInChain(e, AuthorNotFound);
    IsMeansInChain(e, BookNotFound);
  }

  /** A book registered with an unknown author reaches the client as
      NotFound: the foreign key violation is wrapped by the repository and
      again by the transaction scope, and the sentinel survives both. */
  lemma MissingAuthorIsNotFound(w: World, name: string, authorIds: seq<string>, stamp: Postgres.BookStamp,
                                encode: Book -> Result<seq<bv8>, Error>, at: int, f: Library.BookFaults)
    requires w.tx.None? && f.begin.None? && f.insert.None? && f.copy.None?
    requires stamp.id !in w.db.books && Postgres.MissingAuthor(w.db, authorIds)
    ensures var r := Library.RegisterBook(w, name, authorIds, stamp, encode, at, f);
      && r.err.Some?
      && ConvertError(r.err.value)
         == Status(NotFound, ExecPrefix + ": " + Postgres.AuthorsMissingPrefix + ": " + SentinelText(AuthorNotFound))
  {
    var inner := World(w.db, Some(Active(w.db)));
    var created := Postgres.CreateBook(inner, Book("", name, authorIds, 0, 0), stamp, None, None, f.insert, f.copy);
    var d1 := w.db.(books := w.db.books[stamp.id := BookRow(name, stamp.createdAt, stamp.updatedAt)]);
    assert Postgres.MissingAuthor(d1, authorIds);
    var e := Wrapped(Postgres.AuthorsMissingPrefix, Known(AuthorNotFound));
    assert created.err == Some(e);
    assert Library.RegisterBookBody(inner, name, authorIds, stamp, encode, at, f).err == Some(e);
    var r := Library.RegisterBook(w, name, authorIds, stamp, encode, at, f);
    assert r.err == Some(Wrapped(ExecPrefix, e));
    assert Is(r.err.value, AuthorNotFound);
  }
}
