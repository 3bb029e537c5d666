/** The library use cases of internal/usecase/library: registering a book or
    an author together with its outbox message in one transaction, and the
    reads and updates that go straight to the repository. Serialisation
    (`json.Marshal`) is a parameter that may fail. */
module Library {
  import opened Wrappers
  import opened Errors
  import Kinds
  import opened Tables
  import opened Transactor
  import OutboxStore
  import Postgres

  const NanosPerSecond: int := 1_000_000_000

  /** `timestamppb.Timestamp` */
  datatype Timestamp = Timestamp(seconds: int, nanos: int)

  /** The API message `library.Book`. */
  datatype BookResponse = BookResponse(id: string, name: string, authorId: seq<string>,
                                       createdAt: Timestamp, updatedAt: Timestamp)

  /** `timestamppb.New`: whole seconds since the epoch, rounded down, and the
      nanoseconds within that second. Times are nanoseconds since the epoch. */
  function ToTimestamp(t: int): (r: Timestamp)
    ensures 0 <= r.nanos < NanosPerSecond
    ensures r.seconds * NanosPerSecond + r.nanos == t
  {
    Timestamp(t / NanosPerSecond, t % NanosPerSecond)
  }

  /** `Timestamp.AsTime` */
  function FromTimestamp(ts: Timestamp): int
  {
    ts.seconds * NanosPerSecond + ts.nanos
  }

  /** `convertBookToResponse` */
  function ConvertBookToResponse(b: Book): (r: BookResponse)
    ensures r.id == b.id && r.name == b.name && r.authorId == b.authorIds
  {
    BookResponse(b.id, b.name, b.authorIds, ToTimestamp(b.createdAt), ToTimestamp(b.updatedAt))
  }

  /** What a client reads back from a `library.Book`. */
  function ResponseToBook(r: BookResponse): Book
  {
    Book(r.id, r.name, r.authorId, FromTimestamp(r.createdAt), FromTimestamp(r.updatedAt))
  }

  /** The response loses nothing: a client recovers the book exactly. */
  lemma ConvertRoundTrip(b: Book)
    ensures ResponseToBook(ConvertBookToResponse(b)) == b
  {
    var r := ConvertBookToResponse(b);
    assert FromTimestamp(r.createdAt) == b.createdAt;
    assert FromTimestamp(r.updatedAt) == b.updatedAt;
  }

  /** The failures `RegisterBook` may meet, each an input of the model:
      beginning and committing its transaction, the book insert, the link
      copy and the outbox insert. */
  datatype BookFaults = BookFaults(begin: Option<Error>, commit: Option<Error>, insert: Option<Error>,
                                   copy: Option<Error>, send: Option<Error>)

  /** The closure `RegisterBook` runs in its transaction: create the book,
      serialise it, enqueue it under `book_<id>`. `at` is the outbox row's
      creation time. */
  function RegisterBookBody(w: World, name: string, authorIds: seq<string>, stamp: Postgres.BookStamp,
                            encode: Book -> Result<Kinds.Bytes, Error>, at: int, f: BookFaults): Run<Book>
  {
    var created := Postgres.CreateBook(w, Book("", name, authorIds, 0, 0), stamp, None, None, f.insert, f.copy);
    if created.err.Some? then created
    else
      match encode(created.value)
      case Fail(e) => Run(created.w, created.value, Some(e))
      case Ok(bytes) =>
        var sent := OutboxStore.SendMessage(created.w, Kinds.IdempotencyKey(Kinds.KindBook, created.value.id),
                                            Kinds.KindBook, bytes, at, f.send);
        Run(sent.w, created.value, sent.err)
  }

  /** The book a successful registration creates. */
  function NewBook(name: string, authorIds: seq<string>, stamp: Postgres.BookStamp): Book
  {
    Book(stamp.id, name, authorIds, stamp.createdAt, stamp.updatedAt)
  }

  /** `RegisterBook`; the reply is `None` exactly when there is an error. */
  function RegisterBook(w: World, name: string, authorIds: seq<string>, stamp: Postgres.BookStamp,
                        encode: Book -> Result<Kinds.Bytes, Error>, at: int, f: BookFaults)
    : (r: Run<Option<BookResponse>>)
    ensures r.err.None? <==> r.value.Some?
    ensures r.value.Some? ==> r.value.value == ConvertBookToResponse(NewBook(name, authorIds, stamp))
  {
    var done := WithTx(w, f.begin, f.commit, (tw: World) => RegisterBookBody(tw, name, authorIds, stamp, encode, at, f),
                       Postgres.ZeroBook);
    if done.err.Some? then Run(done.w, None, done.err)
    else Run(done.w, Some(ConvertBookToResponse(done.value)), None)
  }

  /** The database after a successful registration: the book, its links and
      its outbox message, all committed together. */
  function Registered(d: Db, book: Book, stamp: Postgres.BookStamp, bytes: Kinds.Bytes, at: int): Db
  {
    var d1 := Postgres.WithBook(d, book, stamp);
    d1.(outbox := OutboxStore.Insert(d1.outbox, Kinds.IdempotencyKey(Kinds.KindBook, stamp.id), Kinds.KindBook, bytes, at))
  }

  /** Called without a transaction, `RegisterBook` is all or nothing: it fails
      exactly when one of its steps fails and then leaves the database as it
      was, or, when the commit goes through, it stores the book with its links
      and the `book_<id>` message carrying the serialised book. The outcome of
      the commit never shows in the reply. */
  lemma RegisterBookAtomic(w: World, name: string, authorIds: seq<string>, stamp: Postgres.BookStamp,
                           encode: Book -> Result<Kinds.Bytes, Error>, at: int, f: BookFaults)
    requires w.tx.None?
    ensures var r := RegisterBook(w, name, authorIds, stamp, encode, at, f);
      var book := NewBook(name, authorIds, stamp);
      && r.w.tx.None?
      && (r.err.None? <==> f.begin.None? && f.insert.None? && f.copy.None? && f.send.None?
                           && stamp.id !in w.db.books && !Postgres.MissingAuthor(w.db, authorIds)
                           && encode(book).Ok?)
      && (r.err.Some? || f.commit.Some? ==> r.w.db == w.db)
      && (r.err.None? && f.commit.None? ==>
            r.w.db == Registered(w.db, Book("", name, authorIds, 0, 0), stamp, encode(book).value, at))
  {
    if f.begin.None? {
      var inner := World(w.db, Some(Active(w.db)));
      Postgres.CreateBookAmbient(inner, Book("", name, authorIds, 0, 0), stamp, None, None, f.insert, f.copy, w.db);
    }
  }

  /** A failed commit is not reported: the client receives the new book
      while the database holds neither the book nor its outbox message. */
  lemma RegisterBookCommitLost(w: World, name: string, authorIds: seq<string>, stamp: Postgres.BookStamp,
                               encode: Book -> Result<Kinds.Bytes, Error>, at: int, e: Error)
    requires w.tx.None?
    requires stamp.id !in w.db.books && !Postgres.MissingAuthor(w.db, authorIds)
    requires encode(NewBook(name, authorIds, stamp)).Ok?
    ensures var r := RegisterBook(w, name, authorIds, stamp, encode, at, BookFaults(None, Some(e), None, None, None));
      && r.err.None?
      && r.value == Some(ConvertBookToResponse(NewBook(name, authorIds, stamp)))
      && r.w == w
  {
    RegisterBookAtomic(w, name, authorIds, stamp, encode, at, BookFaults(None, Some(e), None, None, None));
  }

  /** The closure `RegisterAuthor` runs in its transaction: create the
      author, serialise it, enqueue it under `author_<id>`. */
  function RegisterAuthorBody(w: World, name: string, id: string, encode: Author -> Result<Kinds.Bytes, Error>,
                              at: int, insert: Option<Error>, send: Option<Error>): Run<Author>
  {
    var created := Postgres.CreateAuthor(w, name, id, None, None, insert);
    if created.err.Some? then created
    else
      match encode(created.value)
      case Fail(e) => Run(created.w, created.value, Some(e))
      case Ok(bytes) =>
        var sent := OutboxStore.SendMessage(created.w, Kinds.IdempotencyKey(Kinds.KindAuthor, created.value.id),
                                            Kinds.KindAuthor, bytes, at, send);
        Run(sent.w, created.value, sent.err)
  }

  /** `RegisterAuthor`: the reply carries the new author's id, and is `None`
      exactly when there is an error. */
  function RegisterAuthor(w: World, name: string, id: string, encode: Author -> Result<Kinds.Bytes, Error>,
                          at: int, begin: Option<Error>, commit: Option<Error>, insert: Option<Error>, send: Option<Error>)
    : (r: Run<Option<string>>)
    ensures r.err.None? <==> r.value.Some?
    ensures r.value.Some? ==> r.value.value == id
  {
    var done := WithTx(w, begin, commit, (tw: World) => RegisterAuthorBody(tw, name, id, encode, at, insert, send),
                       Postgres.ZeroAuthor);
    if done.err.Some? then Run(done.w, None, done.err)
    else Run(done.w, Some(done.value.id), None)
  }

  /** Called without a transaction, `RegisterAuthor` is all or nothing: the
      author and its `author_<id>` message are stored together when the
      commit goes through, or the database is left as it was. A failed commit
      still replies with the id. */
  lemma RegisterAuthorAtomic(w: World, name: string, id: string, encode: Author -> Result<Kinds.Bytes, Error>,
                             at: int, begin: Option<Error>, commit: Option<Error>, insert: Option<Error>,
                             send: Option<Error>)
    requires w.tx.None?
    ensures var r := RegisterAuthor(w, name, id, encode, at, begin, commit, insert, send);
      var key := Kinds.IdempotencyKey(Kinds.KindAuthor, id);
      && r.w.tx.None?
      && (r.err.None? <==> begin.None? && insert.None? && send.None? && id !in w.db.authors
                           && encode(Author(id, name)).Ok?)
      && (r.err.Some? || commit.Some? ==> r.w.db == w.db)
      && (r.err.None? && commit.None? ==> r.w.db == w.db.(authors := w.db.authors[id := name],
            outbox := OutboxStore.Insert(w.db.outbox, key, Kinds.KindAuthor, encode(Author(id, name)).value, at)))
  {
  }

  /** `GetBook`: the repository's book as a response; its errors unchanged. */
  function GetBook(w: World, bookId: string, io: Option<Error>): (r: Result<BookResponse, Error>)
    ensures io.None? ==> (r.Fail? <==> bookId !in w.db.books)
    ensures io.None? && r.Fail? ==> Is(r.error, BookNotFound)
    ensures r.Ok? ==> var b := ResponseToBook(r.value);
      b.id == bookId && bookId in w.db.books && b.name == w.db.books[bookId].name
      && b.authorIds == AuthorsOf(w.db.links, bookId)
  {
    match Postgres.GetBook(w, bookId, io)
    case Fail(e) => Fail(e)
    case Ok(b) =>
      ConvertRoundTrip(b);
      Ok(ConvertBookToResponse(b))
  }

  /** `ChangeBookInfo`: the repository update with the id, name and authors
      passed through unchanged, its error returned as is, and nothing
      enqueued. On success the book carries the new name and is linked to
      exactly the requested authors. */
  function ChangeBookInfo(w: World, bookId: string, name: string, authorIds: seq<string>,
                          begin: Option<Error>, io: Option<Error>): (r: Run<()>)
    ensures r.w.tx == w.tx
    ensures r.err.Some? ==> r.w == w
    ensures r.err.None? <==>
      begin.None? && io.None? && !Postgres.MissingAuthor(w.db, Postgres.Without(authorIds, AuthorsOf(w.db.links, bookId)))
    ensures begin.Some? ==> r.err == begin
    ensures begin.None? && io.Some? ==> r.err == io
    ensures r.err.Some? && begin.None? && io.None? ==> Is(r.err.value, AuthorNotFound)
    ensures r.err.None? && bookId in w.db.books ==>
      bookId in r.w.db.books && r.w.db.books[bookId].name == name
    ensures r.err.None? ==> forall a :: Link(a, bookId) in r.w.db.links <==> a in authorIds
  {
    var done := Postgres.ChangeBookInfo(w, bookId, Book(bookId, name, authorIds, 0, 0), begin, io);
    if done.err.None? then
      Postgres.ChangeBookInfoLinks(w, bookId, Book(bookId, name, authorIds, 0, 0), Link("", ""));
      Run(done.w, (), None)
    else Run(done.w, (), done.err)
  }

  /** Changing a book never touches the outbox: no message is produced for an update. */
  lemma ChangeBookInfoSendsNothing(w: World, bookId: string, name: string, authorIds: seq<string>,
                                   begin: Option<Error>, io: Option<Error>)
    ensures ChangeBookInfo(w, bookId, name, authorIds, begin, io).w.db.outbox == w.db.outbox
  {
  }

  function ConvertAll(books: seq<Book>): (r: seq<BookResponse>)
    ensures |r| == |books|
    ensures forall i :: 0 <= i < |books| ==> r[i] == ConvertBookToResponse(books[i])
  {
    if |books| == 0 then [] else [ConvertBookToResponse(books[0])] + ConvertAll(books[1..])
  }

  /** `GetBooksByAuthor`: one response per book the repository returns, in
      its order; its error is returned as is. */
  function GetBooksByAuthor(w: World, authorId: string, io: Option<Error>, broken: Option<nat>)
    : (r: Result<seq<BookResponse>, Error>)
    ensures r.Fail? <==> io.Some?
    ensures r.Fail? ==> r.error == io.value
    ensures r.Ok? ==> r.value == ConvertAll(Postgres.GetBooksByAuthor(w, authorId, io, broken).value)
    ensures r.Ok? ==> forall b :: b in r.value ==>
      var book := ResponseToBook(b);
      book.id in w.db.books && Link(authorId, book.id) in w.db.links && book.authorIds == AuthorsOf(w.db.links, book.id)
    ensures r.Ok? && broken.None? ==> forall id :: id in w.db.books && Link(authorId, id) in w.db.links ==>
      exists b :: b in r.value && b.id == id
  {
    match Postgres.GetBooksByAuthor(w, authorId, io, broken)
    case Fail(e) => Fail(e)
    case Ok(books) =>
      ConvertAllReadsBack(books);
      ConvertAllKeepsIds(books);
      Ok(ConvertAll(books))
  }

  /** A client reads every converted book back exactly. */
  lemma ConvertAllReadsBack(books: seq<Book>)
    ensures forall b :: b in ConvertAll(books) ==> ResponseToBook(b) in books
  {
    forall b | b in ConvertAll(books)
      ensures ResponseToBook(b) in books
    {
      var i :| 0 <= i < |books| && ConvertAll(books)[i] == b;
      ConvertRoundTrip(books[i]);
    }
  }

  /** Every book id survives the conversion. */
  lemma ConvertAllKeepsIds(books: seq<Book>)
    ensures forall bk :: bk in books ==> exists b :: b in ConvertAll(books) && b.id == bk.id
  {
    forall bk | bk in books
      ensures exists b :: b in ConvertAll(books) && b.id == bk.id
    {
      var i :| 0 <= i < |books| && books[i] == bk;
      assert ConvertAll(books)[i] in ConvertAll(books);
    }
  }

  /** The API message `GetAuthorInfoResponse`. */
  datatype AuthorInfo = AuthorInfo(id: string, name: string)

  /** `GetAuthor` */
  function GetAuthor(w: World, authorId: string, io: Option<Error>): (r: Result<AuthorInfo, Error>)
    ensures io.None? ==> (r.Ok? <==> authorId in w.db.authors)
    ensures io.None? && r.Fail? ==> Is(r.error, AuthorNotFound)
    ensures r.Ok? ==> authorId in w.db.authors && r.value == AuthorInfo(authorId, w.db.authors[authorId])
  {
    match Postgres.GetAuthor(w, authorId, io)
    case Fail(e) => Fail(e)
    case Ok(a) => Ok(AuthorInfo(a.id, a.name))
  }

  /** `ChangeAuthorInfo` */
  function ChangeAuthorInfo(w: World, authorId: string, newName: string, io: Option<Error>): (r: Run<()>)
    ensures r.err.Some? ==> r.w == w
    ensures io.None? ==> (r.err.Some? <==> authorId !in w.db.authors)
    ensures io.None? && r.err.Some? ==> Is(r.err.value, AuthorNotFound)
    ensures r.err.None? ==> r.w.db == w.db.(authors := w.db.authors[authorId := newName]) && r.w.tx == w.tx
  {
    var done := Postgres.ChangeAuthorInfo(w, authorId, Author(authorId, newName), io);
    Run(done.w, (), done.err)
  }
}
