/** The book and author repository of internal/usecase/repository/postgres.go,
    with SQL statements turned into operations on the tables of `Db`. Ids and
    timestamps the database generates are parameters, and so are driver
    failures (`io`) and the outcomes of beginning and committing a
    transaction (`begin`, `commit`). */
module Postgres {
  import opened Wrappers
  import opened Errors
  import opened Tables
  import opened Transactor

  const AuthorsMissingPrefix: string := "some authors does not exist"

  /** `getError`: a foreign key violation becomes an error wrapping
      `ErrAuthorNotFound`; every other error is returned unchanged. */
  function GetError(e: Error): (r: Error)
    ensures AsPg(e) == Some(ForeignKeyViolation) ==> r == Wrapped(AuthorsMissingPrefix, Known(AuthorNotFound))
    ensures AsPg(e) != Some(ForeignKeyViolation) ==> r == e
    ensures Is(r, AuthorNotFound) <==> AsPg(e) == Some(ForeignKeyViolation) || Is(e, AuthorNotFound)
  {
    if AsPg(e) == Some(ForeignKeyViolation) then Wrapped(AuthorsMissingPrefix, Known(AuthorNotFound)) else e
  }

  /** `sql.NullString` */
  type NullString = Option<string>

  /** `NullString.String`: the empty string for NULL. */
  function StringOf(n: NullString): string
  {
    match n
    case Some(s) => s
    case None => ""
  }

  function Strings(ids: seq<NullString>): (r: seq<string>)
    ensures |r| == |ids|
    ensures forall i :: 0 <= i < |ids| ==> r[i] == StringOf(ids[i])
  {
    if |ids| == 0 then [] else [StringOf(ids[0])] + Strings(ids[1..])
  }

  /** `getAuthorsList`: the source reads the first element unguarded, so the
      list must not be empty (an `array_agg` over a group never is). */
  function GetAuthorsList(ids: seq<NullString>): (r: seq<string>)
    requires |ids| > 0
    ensures ids[0].None? ==> r == []
    ensures ids[0].Some? ==> |r| == |ids| && forall i :: 0 <= i < |ids| && ids[i].Some? ==> r[i] == ids[i].value
  {
    if ids[0].Some? then Strings(ids) else []
  }

  /** `array_agg(author_book.author_id)` over `book LEFT JOIN author_book`
      for one book: a single NULL when the book has no links. */
  function AggregateAuthors(links: seq<Link>, bookId: string): (r: seq<NullString>)
    ensures |r| > 0
  {
    var ids := AuthorsOf(links, bookId);
    if |ids| == 0 then [None] else SomeAll(ids)
  }

  function SomeAll(s: seq<string>): (r: seq<NullString>)
    ensures |r| == |s|
    ensures forall i :: 0 <= i < |s| ==> r[i] == Some(s[i])
  {
    if |s| == 0 then [] else [Some(s[0])] + SomeAll(s[1..])
  }

  /** Reading a book's authors back through the aggregate gives its links in order. */
  lemma AuthorsListOfAggregate(links: seq<Link>, bookId: string)
    ensures GetAuthorsList(AggregateAuthors(links, bookId)) == AuthorsOf(links, bookId)
  {
  }

  /** The rows `addAuthorBooks` copies into author_book. */
  function LinksFor(bookId: string, authorIds: seq<string>): (r: seq<Link>)
    ensures |r| == |authorIds|
    ensures forall i :: 0 <= i < |r| ==> r[i] == Link(authorIds[i], bookId)
  {
    if |authorIds| == 0 then [] else [Link(authorIds[0], bookId)] + LinksFor(bookId, authorIds[1..])
  }

  /** Some author id has no row in `author`: the copy violates the foreign key. */
  predicate MissingAuthor(d: Db, authorIds: seq<string>)
  {
    exists a :: a in authorIds && a !in d.authors
  }

  /** `addAuthorBooks`: link every author to the book, or fail as a whole. */
  function AddAuthorBooks(d: Db, bookId: string, authorIds: seq<string>, io: Option<Error>): (r: Result<Db, Error>)
    ensures r.Ok? <==> io.None? && !MissingAuthor(d, authorIds)
    ensures r.Ok? ==> r.value == d.(links := d.links + LinksFor(bookId, authorIds))
    ensures io.None? && MissingAuthor(d, authorIds) ==> r.error == Wrapped(AuthorsMissingPrefix, Known(AuthorNotFound))
  {
    if io.Some? then Fail(GetError(io.value))
    else if MissingAuthor(d, authorIds) then
      Fail(GetError(Pg(ForeignKeyViolation, "insert or update on table \"author_book\" violates foreign key constraint")))
    else Ok(d.(links := d.links + LinksFor(bookId, authorIds)))
  }

  /** Go's `entity.Book{}` */
  const ZeroBook: Book := Book("", "", [], 0, 0)
  /** Go's `entity.Author{}` */
  const ZeroAuthor: Author := Author("", "")

  /** What the database generates for a new book row. */
  datatype BookStamp = BookStamp(id: string, createdAt: int, updatedAt: int)

  /** The statements of `CreateBook` on the transaction the context carries:
      insert the book, then its links. */
  function CreateBookOn(w: World, book: Book, stamp: BookStamp, insertIo: Option<Error>, copyIo: Option<Error>): Run<Book>
  {
    match Current(w)
    case Fail(e) => Run(w, ZeroBook, Some(e))
    case Ok(d) =>
      if insertIo.Some? then Run(w, ZeroBook, insertIo)
      else if stamp.id in d.books then Run(w, ZeroBook, Some(Pg(UniqueViolation, "duplicate key value violates unique constraint")))
      else
        var d1 := d.(books := d.books[stamp.id := BookRow(book.name, stamp.createdAt, stamp.updatedAt)]);
        match AddAuthorBooks(d1, stamp.id, book.authorIds, copyIo)
        case Fail(e) => Run(Store(w, d1), ZeroBook, Some(e))
        case Ok(d2) => Run(Store(w, d2), Book(stamp.id, book.name, book.authorIds, stamp.createdAt, stamp.updatedAt), None)
  }

  /** `CreateBook`: in the context's transaction, left open, or in one of its own. */
  function CreateBook(w: World, book: Book, stamp: BookStamp, begin: Option<Error>, commit: Option<Error>,
                      insertIo: Option<Error>, copyIo: Option<Error>): (r: Run<Book>)
    ensures r.err.None? ==> r.value == Book(stamp.id, book.name, book.authorIds, stamp.createdAt, stamp.updatedAt)
    ensures r.err.Some? ==> r.value == ZeroBook
  {
    AmbientOrOwn(w, begin, commit, (tw: World) => CreateBookOn(tw, book, stamp, insertIo, copyIo), ZeroBook)
  }

  /** The state a successful `CreateBook` adds to. */
  function WithBook(d: Db, book: Book, stamp: BookStamp): Db
  {
    d.(books := d.books[stamp.id := BookRow(book.name, stamp.createdAt, stamp.updatedAt)],
       links := d.links + LinksFor(stamp.id, book.authorIds))
  }

  /** Without a transaction in the context, `CreateBook` reports success
      exactly when every statement succeeds, and stores the book with all its
      links or nothing. A failed commit stores nothing yet still returns the
      book with no error. */
  lemma CreateBookStandalone(w: World, book: Book, stamp: BookStamp, begin: Option<Error>, commit: Option<Error>,
                             insertIo: Option<Error>, copyIo: Option<Error>)
    requires w.tx.None?
    ensures var r := CreateBook(w, book, stamp, begin, commit, insertIo, copyIo);
      && r.w.tx.None?
      && (r.err.None? <==> begin.None? && insertIo.None? && copyIo.None?
                           && stamp.id !in w.db.books && !MissingAuthor(w.db, book.authorIds))
      && (r.err.None? && commit.None? ==> r.w.db == WithBook(w.db, book, stamp))
      && (r.err.Some? || commit.Some? ==> r.w.db == w.db)
  {
  }

  /** With a transaction in the context, `CreateBook` writes only into it,
      leaves it open, and commits nothing. */
  lemma CreateBookAmbient(w: World, book: Book, stamp: BookStamp, begin: Option<Error>, commit: Option<Error>,
                          insertIo: Option<Error>, copyIo: Option<Error>, work: Db)
    requires w.tx == Some(Active(work))
    ensures var r := CreateBook(w, book, stamp, begin, commit, insertIo, copyIo);
      && r.w.db == w.db
      && r.w.tx.Some? && r.w.tx.value.Active?
      && (r.err.None? ==> r.w.tx == Some(Active(WithBook(work, book, stamp))))
  {
  }

  /** `getError` applied to a missing-row scan: `errors.Is(err, pgx.ErrNoRows)`
      becomes the given not-found sentinel. */
  function NotFoundAs(err: Error, s: Sentinel): Error
  {
    if Is(err, NoRows) then Known(s) else err
  }

  /** `GetBook`: reads the committed tables through the pool, never the
      context's transaction. */
  function GetBook(w: World, bookId: string, io: Option<Error>): (r: Result<Book, Error>)
    ensures io.None? ==> (r.Fail? <==> bookId !in w.db.books)
    ensures io.None? && r.Fail? ==> r.error == Known(BookNotFound)
    ensures r.Ok? ==> r.value.id == bookId && r.value.authorIds == AuthorsOf(w.db.links, bookId)
  {
    var err := if io.Some? then io else if bookId !in w.db.books then Some(Known(NoRows)) else None;
    if err.Some? then Fail(NotFoundAs(err.value, BookNotFound))
    else
      var row := w.db.books[bookId];
      AuthorsListOfAggregate(w.db.links, bookId);
      Ok(Book(bookId, row.name, GetAuthorsList(AggregateAuthors(w.db.links, bookId)), row.createdAt, row.updatedAt))
  }

  /** The elements of `s` that do not occur in `excluded`, in the order of
      `s`, each as often as in `s`. */
  function Without(s: seq<string>, excluded: seq<string>): (r: seq<string>)
    ensures forall a :: a in r <==> a in s && a !in excluded
    ensures forall a :: multiset(r)[a] == if a in excluded then 0 else multiset(s)[a]
    ensures IsSubsequence(r, s)
  {
    if |s| == 0 then []
    else
      var rest := Without(s[1..], excluded);
      assert forall a :: a in s <==> a == s[0] || a in s[1..];
      assert s == [s[0]] + s[1..];
      assert multiset(s) == multiset{s[0]} + multiset(s[1..]);
      if s[0] in excluded then
        SubsequenceOfTail(rest, s);
        rest
      else
        [s[0]] + rest
  }

  /** The links the author diff leaves in place: `DELETE FROM author_book
      WHERE author_id = ANY(del)`, whatever book the link belongs to. */
  function RemoveLinksOf(links: seq<Link>, del: seq<string>): (r: seq<Link>)
    ensures forall l :: l in r <==> l in links && l.authorId !in del
  {
    if |links| == 0 then []
    else
      var rest := RemoveLinksOf(links[1..], del);
      assert forall l :: l in links <==> l == links[0] || l in links[1..];
      if links[0].authorId in del then rest else [links[0]] + rest
  }

  /** The author diff of `ChangeBookInfo`: the current authors to unlink and
      the new ones to link. */
  lemma AuthorDiff(current: seq<string>, wanted: seq<string>)
    ensures var del, ins := Without(current, wanted), Without(wanted, current);
      && (forall a :: a in del <==> a in current && a !in wanted)
      && (forall a :: a in ins <==> a in wanted && a !in current)
      && IsSubsequence(del, current) && IsSubsequence(ins, wanted)
      && (forall a :: !(a in del && a in ins))
      && (forall a :: (a in current && a !in del) || a in ins <==> a in wanted)
  {
  }

  /** `ChangeBookInfo`: always in a transaction of its own, whatever the
      context carries. `io` is a failure other than the foreign key
      violation: of the UPDATE, of the author query or its scan or iterator,
      of the DELETE, of the copy, or of the explicit commit; it is returned
      unchanged. When `io` is a commit failure it stands for a run in which
      the copy succeeded; the model does not pair it with a missing author,
      whose violation ends the Go function before the commit. The deferred
      rollback discards everything on any failure. The UPDATE's row count
      is never checked, so a missing book is not reported. */
  function ChangeBookInfo(w: World, bookId: string, newBook: Book, begin: Option<Error>, io: Option<Error>): (r: Run<Book>)
    ensures r.w.tx == w.tx
    ensures r.err.Some? ==> r.w == w && r.value == ZeroBook
    ensures r.err.None? ==> r.value == Book(bookId, newBook.name, newBook.authorIds, 0, 0)
    ensures r.err.None? <==>
      begin.None? && io.None? && !MissingAuthor(w.db, Without(newBook.authorIds, AuthorsOf(w.db.links, bookId)))
    ensures begin.Some? ==> r.err == begin
    ensures begin.None? && io.Some? ==> r.err == io
    ensures r.err.Some? && begin.None? && io.None? ==> r.err.value == Wrapped(AuthorsMissingPrefix, Known(AuthorNotFound))
    ensures r.err.None? ==> r.w.db.authors == w.db.authors && r.w.db.outbox == w.db.outbox
    ensures r.err.None? ==> r.w.db.books.Keys == w.db.books.Keys
    ensures r.err.None? && bookId in w.db.books ==>
      r.w.db.books[bookId] == w.db.books[bookId].(name := newBook.name)
    ensures r.err.None? ==> forall id :: id in w.db.books && id != bookId ==> r.w.db.books[id] == w.db.books[id]
  {
    if begin.Some? then Run(w, ZeroBook, begin)
    else if io.Some? then Run(w, ZeroBook, io)
    else
      var d := w.db;
      var d1 := if bookId in d.books then d.(books := d.books[bookId := d.books[bookId].(name := newBook.name)]) else d;
      var current := AuthorsOf(d1.links, bookId);
      var del := Without(current, newBook.authorIds);
      var ins := Without(newBook.authorIds, current);
      var d2 := d1.(links := RemoveLinksOf(d1.links, del));
      match AddAuthorBooks(d2, bookId, ins, None)
      case Fail(e) => Run(w, ZeroBook, Some(e))
      case Ok(d3) => Run(World(d3, w.tx), Book(bookId, newBook.name, newBook.authorIds, 0, 0), None)
  }

  /** After a successful `ChangeBookInfo` the book is linked to exactly the
      requested authors, and every other book has lost its links to the
      authors that were removed from this one. */
  lemma ChangeBookInfoLinks(w: World, bookId: string, newBook: Book, l: Link)
    requires ChangeBookInfo(w, bookId, newBook, None, None).err.None?
    ensures var links := ChangeBookInfo(w, bookId, newBook, None, None).w.db.links;
      var del := Without(AuthorsOf(w.db.links, bookId), newBook.authorIds);
      && (forall a :: Link(a, bookId) in links <==> a in newBook.authorIds)
      && (l.bookId != bookId ==> (l in links <==> l in w.db.links && l.authorId !in del))
  {
    var current := AuthorsOf(w.db.links, bookId);
    var del := Without(current, newBook.authorIds);
    var ins := Without(newBook.authorIds, current);
    var links := ChangeBookInfo(w, bookId, newBook, None, None).w.db.links;
    assert links == RemoveLinksOf(w.db.links, del) + LinksFor(bookId, ins);
    forall a
      ensures Link(a, bookId) in links <==> a in newBook.authorIds
    {
      if a in ins {
        var i :| 0 <= i < |ins| && ins[i] == a;
        assert LinksFor(bookId, ins)[i] == Link(a, bookId);
      }
      AuthorDiff(current, newBook.authorIds);
    }
  }

  /** The distinct ids of `s`, each kept at its last occurrence. */
  function Distinct(s: seq<string>): (r: seq<string>)
    ensures NoDups(r)
    ensures forall a :: a in r <==> a in s
  {
    if |s| == 0 then []
    else
      var rest := Distinct(s[1..]);
      assert forall a :: a in s <==> a == s[0] || a in s[1..];
      if s[0] in s[1..] then rest else [s[0]] + rest
  }

  /** The books linked to `authorId`, by id in link-table order. */
  function BookIdsOf(links: seq<Link>, authorId: string): (r: seq<string>)
    ensures forall b :: b in r <==> Link(authorId, b) in links
  {
    if |links| == 0 then []
    else
      var rest := BookIdsOf(links[1..], authorId);
      assert forall l :: l in links <==> l == links[0] || l in links[1..];
      if links[0].authorId == authorId then [links[0].bookId] + rest else rest
  }

  /** The stored books among `ids`, in the order of `ids`. */
  function BooksOf(d: Db, ids: seq<string>): (r: seq<Book>)
    ensures forall b :: b in r ==> b.id in ids && b.id in d.books && b.authorIds == AuthorsOf(d.links, b.id)
  {
    if |ids| == 0 then []
    else
      var rest := BooksOf(d, ids[1..]);
      if ids[0] in d.books then
        var row := d.books[ids[0]];
        [Book(ids[0], row.name, AuthorsOf(d.links, ids[0]), row.createdAt, row.updatedAt)] + rest
      else rest
  }

  /** Every stored book among `ids` is in `BooksOf`. */
  lemma {:induction false} BooksOfComplete(d: Db, ids: seq<string>, id: string)
    requires id in ids && id in d.books
    ensures exists b :: b in BooksOf(d, ids) && b.id == id
  {
    if ids[0] == id {
      assert BooksOf(d, ids)[0].id == id;
    } else {
      BooksOfComplete(d, ids[1..], id);
      var b :| b in BooksOf(d, ids[1..]) && b.id == id;
      assert b in BooksOf(d, ids);
    }
  }

  /** Distinct ids give books with distinct ids. */
  lemma {:induction false} BooksOfDistinct(d: Db, ids: seq<string>)
    requires NoDups(ids)
    ensures NoDups(BookIds(BooksOf(d, ids)))
  {
    if |ids| > 0 {
      var rest := BooksOf(d, ids[1..]);
      assert NoDups(ids[1..]) by {
        forall i, j | 0 <= i < j < |ids[1..]| ensures ids[1..][i] != ids[1..][j] {
          assert ids[1..][i] == ids[i + 1] && ids[1..][j] == ids[j + 1];
        }
      }
      BooksOfDistinct(d, ids[1..]);
      if ids[0] in d.books {
        var b := BooksOf(d, ids)[0];
        assert BooksOf(d, ids) == [b] + rest;
        assert BookIds(BooksOf(d, ids)) == [ids[0]] + BookIds(rest);
        forall j | 0 <= j < |rest| ensures rest[j].id != ids[0] {
          assert rest[j] in rest;
          var k :| 0 <= k < |ids[1..]| && ids[1..][k] == rest[j].id;
          assert ids[k + 1] == rest[j].id;
        }
      }
    }
  }

  /** The ids of a list of books, in order. */
  function BookIds(books: seq<Book>): (r: seq<string>)
    ensures |r| == |books|
    ensures forall i :: 0 <= i < |books| ==> r[i] == books[i].id
  {
    if |books| == 0 then [] else [books[0].id] + BookIds(books[1..])
  }

  /** Every stored book linked to the author, once each, in the order the
      grouped rows come back (fixed here, unspecified in Postgres). */
  function AllBooksOf(d: Db, authorId: string): seq<Book>
  {
    BooksOf(d, Distinct(BookIdsOf(d.links, authorId)))
  }

  /** `GetBooksByAuthor`: every stored book linked to the author, once,
      each with all of its authors. Reads through the pool. `io` is a failed
      query or scan, which is returned. `broken` is a failure of the row
      iterator after that many rows: `rows.Next` then stops, `rows.Err` is
      never consulted, and the rows read so far come back with no error. */
  function GetBooksByAuthor(w: World, authorId: string, io: Option<Error>, broken: Option<nat>)
    : (r: Result<seq<Book>, Error>)
    ensures r.Fail? <==> io.Some?
    ensures r.Fail? ==> r.error == io.value
    ensures r.Ok? ==> NoDups(BookIds(r.value))
    ensures r.Ok? ==> forall b :: b in r.value ==>
      b.id in w.db.books && Link(authorId, b.id) in w.db.links && b.authorIds == AuthorsOf(w.db.links, b.id)
    ensures r.Ok? && broken.None? ==> forall id :: id in w.db.books && Link(authorId, id) in w.db.links ==>
      exists b :: b in r.value && b.id == id
    ensures r.Ok? && broken.Some? ==> |r.value| <= broken.value
  {
    if io.Some? then Fail(io.value)
    else
      var ids := Distinct(BookIdsOf(w.db.links, authorId));
      var all := BooksOf(w.db, ids);
      BooksOfDistinct(w.db, ids);
      assert forall id :: id in w.db.books && Link(authorId, id) in w.db.links ==>
        exists b :: b in all && b.id == id by {
        forall id | id in w.db.books && Link(authorId, id) in w.db.links
          ensures exists b :: b in all && b.id == id
        {
          BooksOfComplete(w.db, ids, id);
        }
      }
      if broken.Some? && broken.value < |all| then
        var cut := all[..broken.value];
        assert BookIds(cut) == BookIds(all)[..broken.value];
        Ok(cut)
      else Ok(all)
  }

  /** The statement of `CreateAuthor`. */
  function CreateAuthorOn(w: World, name: string, id: string, io: Option<Error>): Run<Author>
  {
    match Current(w)
    case Fail(e) => Run(w, ZeroAuthor, Some(e))
    case Ok(d) =>
      if io.Some? then Run(w, ZeroAuthor, io)
      else if id in d.authors then Run(w, ZeroAuthor, Some(Pg(UniqueViolation, "duplicate key value violates unique constraint")))
      else Run(Store(w, d.(authors := d.authors[id := name])), Author(id, name), None)
  }

  /** `CreateAuthor`: in the context's transaction, left open, or in one of
      its own. `id` is the id the database generates. */
  function CreateAuthor(w: World, name: string, id: string, begin: Option<Error>, commit: Option<Error>,
                        io: Option<Error>): (r: Run<Author>)
    ensures r.err.None? ==> r.value == Author(id, name)
    ensures r.err.Some? ==> r.value == ZeroAuthor
  {
    AmbientOrOwn(w, begin, commit, (tw: World) => CreateAuthorOn(tw, name, id, io), ZeroAuthor)
  }

  /** Without a transaction in the context, `CreateAuthor` reports success
      exactly when its insert succeeds, and stores the author when the commit
      goes through too; a failed commit stores nothing and is not reported. */
  lemma CreateAuthorStandalone(w: World, name: string, id: string, begin: Option<Error>, commit: Option<Error>,
                               io: Option<Error>)
    requires w.tx.None?
    ensures var r := CreateAuthor(w, name, id, begin, commit, io);
      && r.w.tx.None?
      && (r.err.None? <==> begin.None? && io.None? && id !in w.db.authors)
      && (r.err.None? && commit.None? ==> r.w.db == w.db.(authors := w.db.authors[id := name]))
      && (r.err.Some? || commit.Some? ==> r.w.db == w.db)
  {
  }

  /** `GetAuthor`: reads through the pool; a missing row is `ErrAuthorNotFound`. */
  function GetAuthor(w: World, id: string, io: Option<Error>): (r: Result<Author, Error>)
    ensures io.None? ==> (r.Ok? <==> id in w.db.authors)
    ensures io.None? && r.Fail? ==> r.error == Known(AuthorNotFound)
    ensures r.Ok? ==> id in w.db.authors && r.value == Author(id, w.db.authors[id])
  {
    var err := if io.Some? then io else if id !in w.db.authors then Some(Known(NoRows)) else None;
    if err.Some? then Fail(NotFoundAs(err.value, AuthorNotFound))
    else Ok(Author(id, w.db.authors[id]))
  }

  /** `ChangeAuthorInfo`: one autocommitted UPDATE through the pool;
      `ErrAuthorNotFound` exactly when it affects no row. */
  function ChangeAuthorInfo(w: World, id: string, newAuthor: Author, io: Option<Error>): (r: Run<Author>)
    ensures r.w.tx == w.tx
    ensures r.err.Some? ==> r.w == w && r.value == ZeroAuthor
    ensures io.None? ==> (r.err == Some(Known(AuthorNotFound)) <==> id !in w.db.authors)
    ensures r.err.None? ==>
      r.value == Author(id, newAuthor.name) && r.w.db == w.db.(authors := w.db.authors[id := newAuthor.name])
  {
    if io.Some? then Run(w, ZeroAuthor, io)
    else if id !in w.db.authors then Run(w, ZeroAuthor, Some(Known(AuthorNotFound)))
    else Run(World(w.db.(authors := w.db.authors[id := newAuthor.name]), w.tx), Author(id, newAuthor.name), None)
  }
}
