/** The database the repository layer works on, as plain values: the outbox
    table, the book and author tables, the author_book link table, and the
    entities the repositories return (internal/entity). */
module Tables {
  import opened Wrappers
  import opened Kinds

  /** The outbox `status` column. */
  datatype Status = Created | InProgress | Success

  /** One outbox row apart from its key. `updatedAt` is in milliseconds. */
  datatype Record = Record(kind: OutboxKind, data: Bytes, status: Status, updatedAt: int)

  /** The outbox table: rows by idempotency key (the primary key), and the
      physical order in which the rows were stored. */
  datatype Outbox = Outbox(rows: map<string, Record>, order: seq<string>)

  /** The physical order lists every row exactly once. */
  predicate ValidOutbox(o: Outbox)
  {
    && NoDups(o.order)
    && (forall k :: k in o.order ==> k in o.rows)
    && (forall k :: k in o.rows ==> k in o.order)
  }

  /** An outbox table that keeps its invariant. */
  type Table = o: Outbox | ValidOutbox(o) witness Outbox(map[], [])

  /** A row of the `book` table apart from its id. */
  datatype BookRow = BookRow(name: string, createdAt: int, updatedAt: int)

  /** A row of the `author_book` table. */
  datatype Link = Link(authorId: string, bookId: string)

  datatype Db = Db(
    outbox: Table,
    books: map<string, BookRow>,
    authors: map<string, string>,   // author id -> name
    links: seq<Link>)                // author_book rows in table order

  /** `entity.Book`; times are integers, and the model represents Go's zero
      `time.Time` as 0. */
  datatype Book = Book(id: string, name: string, authorIds: seq<string>, createdAt: int, updatedAt: int)

  /** `entity.Author` */
  datatype Author = Author(id: string, name: string)

  /** The ids of the authors linked to `bookId`, in table order
      (`SELECT author_id FROM author_book WHERE book_id = $1`). */
  function AuthorsOf(links: seq<Link>, bookId: string): (r: seq<string>)
    ensures forall a :: a in r <==> Link(a, bookId) in links
  {
    if |links| == 0 then []
    else
      var rest := AuthorsOf(links[1..], bookId);
      assert forall l :: l in links <==> l == links[0] || l in links[1..];
      if links[0].bookId == bookId then [links[0].authorId] + rest else rest
  }
}
