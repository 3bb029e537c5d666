# Transactional outbox of the Library service, in Dafny

The Library service stores books and authors in Postgres. Every time it
registers a book or an author, it also writes an outbox message in the same
transaction. Background workers later claim batches of those messages and
post them to external services. A worker marks a message processed only when
delivery succeeded, and it re-claims rows stuck in progress once a TTL has
passed.

This project models that core as pure functions over an immutable database
state:

- **Tables** (`tables.dfy`): the `outbox` table is a map from idempotency key
  to record, plus the physical row order. The `book`, `author` and
  `author_book` tables are maps and a sequence of links.
- **Transactor** (`transactor.dfy`): a context may carry a transaction. A
  transaction is a snapshot of the database. A successful commit installs
  the snapshot; a failed commit or a rollback discards it. Every deferred
  commit (`transactor.go:42`, `postgres.go:79`, `postgres.go:248`) drops
  its error, so a lost commit there is reported as success; only
  `ChangeBookInfo`'s explicit commit returns its error. An ended
  transaction refuses further statements.
  `WithTx`, `injectTx` and `extractTX` follow the Go code branch by branch.
  That includes a nested scope ending the caller's transaction.
- **Outbox repository** (`outbox_store.dfy`): `SendMessage` is an idempotent
  insert. `GetMessages` is the claim `UPDATE`: it selects the oldest claimable
  rows up to the limit, flips them to IN_PROGRESS, and receives the TTL as
  truncated milliseconds. `MarkAsProcessed` is a bulk move to SUCCESS.
- **Book and author repository** (`postgres.go` → `postgres.dfy`): this
  covers `getError`, `getAuthorsList`, `addAuthorBooks`, the ambient-or-own
  transaction of `CreateBook`/`CreateAuthor`, and the author diff of
  `ChangeBookInfo`. It also covers the not-found rules of the reads and
  updates.
- **Use cases** (`library.dfy`): `RegisterBook` and `RegisterAuthor` create
  the entity and enqueue `<kind>_<id>` in one transaction. The remaining
  calls pass straight through to the repository.
- **Worker** (`worker.dfy`): one cycle is sleep, then the enabled check, then
  claim, dispatch and mark inside `WithTx`. The worker loop stops after the
  first enabled cycle that finds the context cancelled; a disabled cycle
  skips that check. `Start` launches the workers.
- **Registry, controller, config** (`registry.dfy`, `controller.dfy`,
  `config.dfy`): these cover the kind-to-handler switch, the error-to-status
  mapping, and the `Enabled`-gated parsing of the outbox settings.

Several things the database or the outside world decides are parameters of
the model:

- ids and timestamps the database generates;
- the outcome of each statement, of `Begin`, of `Commit` and of
  serialisation (`Option<Error>` or `Result`);
- Postgres' `now()`;
- whether anything refreshes `updated_at` when a row is claimed (`refresh`);
- kind resolution and delivery (functions).

The claim `UPDATE` does not assign `updated_at` itself. As written,
`refresh` is false; `ReclaimWithoutRefresh` shows the consequence.

Where an `ORDER BY updated_at` has ties, the model takes rows in physical
order. Any order satisfying the proved properties would do.

## Model

| member | source | states |
|---|---|---|
| Errors.IsMeansInChain | internal/controller/util.go:12-15 | `errors.Is` holds exactly when the sentinel occurs somewhere in the error's wrap chain |
| Decimal.ParseInt | config/config.go:114-122 | accepted values are 64-bit integers; every failure is a `strconv` number error naming the input |
| Decimal.ParseIntOfSigned | config/config.go:114-122 | a sign (none, `+`, `-`) followed by decimal digits parses to the value it spells, or is a range error when that value needs more than 64 bits |
| Decimal.ParseIntOnlySigned | config/config.go:114-122 | an accepted string is a signed decimal spelling of the returned value; any other string is a syntax error |
| Decimal.ParseFormatRoundTrip | config/config.go:114-122 | parsing the decimal text of any 64-bit integer gives that integer back |
| Decimal.ParseBool | config/config.go:66 | exactly the six true and six false spellings are accepted; anything else is a syntax error |
| Durations.Milliseconds | internal/usecase/repository/outbox.go:53 | the TTL becomes whole milliseconds truncated toward zero, bracketing the duration from both sides |
| Durations.FromMillis | config/config.go:111 | milliseconds times `time.Millisecond`, exact whenever the product fits in 64 bits |
| Durations.MillisRoundTrip | config/config.go:104-112 | turning milliseconds into a Duration and back recovers them when they fit |
| Kinds.KindName | internal/usecase/repository/interfaces.go:45-54 | Book ↔ "book", Author ↔ "author", every other value ↔ "undefined" |
| Kinds.NameNotInjective | internal/usecase/repository/interfaces.go:51-52 | Undefined and any out-of-range kind share the name "undefined" |
| Kinds.KeyCollision | internal/usecase/library/books.go:48 | two idempotency keys are equal iff the kind names and the ids are equal; book and author keys never collide |
| Tables.AuthorsOf | internal/usecase/repository/postgres.go:149-150 | an author is listed for a book iff a link between them exists |
| Transactor.ExtractTx | internal/usecase/repository/transactor.go:58-66 | without a transaction in the context the result is `ErrTxNotFound`; otherwise it is that transaction |
| Transactor.InjectTx | internal/usecase/repository/transactor.go:68-80 | an existing transaction is reused with the context unchanged; otherwise a new one is begun on a snapshot, or the begin error is returned |
| Transactor.Current | internal/usecase/repository/outbox.go:30-34 | a statement reads the transaction's working copy, the database without a transaction, and fails with `ErrTxClosed` on an ended one |
| Transactor.Store | internal/usecase/repository/outbox.go:30-34 | a statement writes into the transaction when there is one, leaving the database alone, and straight into the database otherwise |
| Transactor.WithTx | internal/usecase/repository/transactor.go:30-52 | a caller without a transaction is left without one; the result is nil exactly when a transaction was available and the function succeeded, whatever the commit did; every returned error is wrapped |
| Transactor.WithTxBeginFailure | internal/usecase/repository/transactor.go:31-34 | if beginning fails, the function never runs and nothing changes |
| Transactor.WithTxRollsBack | internal/usecase/repository/transactor.go:36-49 | a failing function is rolled back, and the wrapped error matches the same sentinels |
| Transactor.WithTxCommits | internal/usecase/repository/transactor.go:42-51 | a succeeding function's working copy is stored when the commit goes through, and no error is returned |
| Transactor.WithTxCommitLost | internal/usecase/repository/transactor.go:36-51 | when the commit fails, nil is still returned and nothing written through the transaction is stored |
| Transactor.WithTxNestedEndsOuter | internal/usecase/repository/transactor.go:36-43 | a nested scope reuses the caller's transaction and ends it, leaving the caller a closed transaction; its writes are stored only if the function and the commit succeed |
| Transactor.AmbientOrOwn | internal/usecase/repository/postgres.go:69-86 | with a transaction in the context the body runs in it; otherwise the caller ends without one and gets the body's error, never the commit's |
| OutboxStore.Insert | internal/usecase/repository/outbox.go:25-27 | a new key gets a CREATED record with the given kind and data; an existing key leaves the table unchanged |
| OutboxStore.Candidates | internal/usecase/repository/outbox.go:45-46 | a row is a candidate iff it is CREATED, or IN_PROGRESS with `updated_at` older than now minus the TTL |
| OutboxStore.SelectOldest | internal/usecase/repository/outbox.go:47-48 | takes min(limit, candidates) distinct candidates in ascending `updated_at`, none younger than any candidate left behind |
| OutboxStore.RemoveAtContents | internal/usecase/repository/outbox.go:47-48 | removing one row from a list of distinct rows removes exactly that row |
| OutboxStore.MarkClaimed | internal/usecase/repository/outbox.go:40-41 | chosen rows become IN_PROGRESS, with `updated_at` changed only under `refresh`; other rows are unchanged |
| OutboxStore.ClaimChooses | internal/usecase/repository/outbox.go:40-51 | a claim returns at most `limit` distinct rows, each claimable and exactly as stored |
| OutboxStore.ClaimTakesAllWhenShort | internal/usecase/repository/outbox.go:47-48 | fewer than `limit` rows are returned only when every claimable row was taken |
| OutboxStore.ClaimOldestFirst | internal/usecase/repository/outbox.go:47 | no claimable row left behind is older than a returned row |
| OutboxStore.ClaimUpdates | internal/usecase/repository/outbox.go:40-41 | claimed rows become IN_PROGRESS with `updated_at` kept unless refreshed; every other row is unchanged |
| OutboxStore.SuccessNeverClaimed | internal/usecase/repository/outbox.go:45-46 | a SUCCESS row is never returned and never changed by a claim |
| OutboxStore.ReclaimWithoutRefresh | internal/usecase/repository/outbox.go:40-46 | as written, a stale row that was just claimed is immediately claimable again |
| OutboxStore.ReclaimWithRefresh | internal/usecase/repository/outbox.go:46 | with the refresh, a claimed row becomes claimable again exactly when more than the TTL has passed |
| OutboxStore.MarkDone | internal/usecase/repository/outbox.go:96 | listed keys become SUCCESS, absent keys are ignored, other rows are unchanged |
| OutboxStore.MarkDoneIdempotent | internal/usecase/repository/outbox.go:96 | marking the same keys twice is the same as marking them once |
| OutboxStore.OperationsProgress | internal/usecase/repository/outbox.go:25-96 | insert, claim and mark never remove a row and never alter a SUCCESS row |
| OutboxStore.SendMessage | internal/usecase/repository/outbox.go:24-37 | succeeds iff the driver succeeds and the transaction is not ended; it then inserts through the transaction or directly; on failure nothing changes |
| OutboxStore.GetMessages | internal/usecase/repository/outbox.go:39-89 | fails iff the driver fails, the transaction is ended or the limit is negative; otherwise it stores the claimed table and returns the claimed rows' key, kind and data |
| OutboxStore.MarkAsProcessed | internal/usecase/repository/outbox.go:91-106 | an empty list returns nil without touching anything; otherwise the keys become SUCCESS, or nothing changes on failure |
| Postgres.GetError | internal/usecase/repository/postgres.go:32-40 | SQLSTATE 23503 becomes an error wrapping `ErrAuthorNotFound`; every other error is unchanged |
| Postgres.GetAuthorsList | internal/usecase/repository/postgres.go:53-61 | a NULL first element gives the empty list; otherwise every id, in order |
| Postgres.AuthorsListOfAggregate | internal/usecase/repository/postgres.go:107-122 | reading a book's aggregated authors back gives exactly its linked authors, and none for a book without links |
| Postgres.AddAuthorBooks | internal/usecase/repository/postgres.go:42-51 | links all authors to the book, or fails as a whole; an unknown author is reported as `ErrAuthorNotFound` |
| Postgres.CreateBook | internal/usecase/repository/postgres.go:63-104 | on success returns the book with the database's id and stamps; on error the zero book |
| Postgres.CreateBookStandalone | internal/usecase/repository/postgres.go:69-82 | without a context transaction, reports success exactly when every statement succeeds; the book and its links are stored only when the commit also goes through, and otherwise nothing changes |
| Postgres.CreateBookAmbient | internal/usecase/repository/postgres.go:69-71 | inside a context transaction, writes only into it, leaves it open and commits nothing |
| Postgres.GetBook | internal/usecase/repository/postgres.go:106-125 | a missing book is `ErrBookNotFound`; a found book carries its id and exactly its linked authors |
| Postgres.Without | internal/usecase/repository/postgres.go:155-186 | keeps exactly the elements absent from the other list, each as often as it occurs, in their original order |
| Postgres.AuthorDiff | internal/usecase/repository/postgres.go:155-186 | authors to delete and to insert are disjoint; current minus deleted plus inserted is the new author set |
| Postgres.RemoveLinksOf | internal/usecase/repository/postgres.go:188 | a link survives iff its author is not among those deleted, whatever its book |
| Postgres.ChangeBookInfo | internal/usecase/repository/postgres.go:127-203 | ignores and keeps the context's transaction; changes nothing on error; fails iff begin, a statement or an unknown new author fails, with that error; never reports a missing book; on success renames the book and leaves the other books, the authors and the outbox alone |
| Postgres.ChangeBookInfoLinks | internal/usecase/repository/postgres.go:188-196 | afterwards the book is linked to exactly the requested authors; other books lose their links to the removed authors |
| Postgres.Distinct | internal/usecase/repository/postgres.go:209 | each id once, and exactly the ids of the input |
| Postgres.BookIdsOf | internal/usecase/repository/postgres.go:208 | a book is listed iff it is linked to the author |
| Postgres.BooksOfComplete | internal/usecase/repository/postgres.go:205-209 | every stored book among the selected ids is returned |
| Postgres.BooksOfDistinct | internal/usecase/repository/postgres.go:209 | grouped by book id, no book is returned twice |
| Postgres.GetBooksByAuthor | internal/usecase/repository/postgres.go:205-230 | fails only on a query or scan error, which it returns; each book at most once; every returned book exists, is linked to the author and carries all of its authors; every such book is returned unless the row iterator broke, in which case at most the rows read so far come back with no error |
| Postgres.CreateAuthor | internal/usecase/repository/postgres.go:232-270 | on success returns the author with the database's id; on error the zero author |
| Postgres.CreateAuthorStandalone | internal/usecase/repository/postgres.go:238-251 | without a context transaction, reports success exactly when begin and insert succeed; the author is stored only when the commit also goes through, and otherwise nothing changes |
| Postgres.GetAuthor | internal/usecase/repository/postgres.go:272-287 | a missing author is `ErrAuthorNotFound`; otherwise the stored name |
| Postgres.ChangeAuthorInfo | internal/usecase/repository/postgres.go:289-307 | `ErrAuthorNotFound` iff no row matches; otherwise the name is updated and committed at once; nothing changes on error |
| Library.ToTimestamp | internal/usecase/library/books.go:21-22 | seconds and nanoseconds-within-the-second that add back up to the time |
| Library.ConvertBookToResponse | internal/usecase/library/books.go:16-24 | the response carries the book's id, name and author ids |
| Library.ConvertRoundTrip | internal/usecase/library/books.go:16-24 | a client recovers the book exactly from its response |
| Library.RegisterBook | internal/usecase/library/books.go:26-66 | a response exists iff there is no error, and it describes the created book |
| Library.RegisterBookAtomic | internal/usecase/library/books.go:29-57 | without a transaction, success is reported exactly when every step succeeds; the book, its links and its `book_<id>` message are stored together when the commit goes through, and otherwise the database is unchanged |
| Library.RegisterBookCommitLost | internal/usecase/repository/transactor.go:36-43 | after a failed commit the client still receives the new book, while the database holds neither it nor its outbox message |
| Library.RegisterAuthor | internal/usecase/library/authors.go:14-53 | a response exists iff there is no error, and its id is the created author's |
| Library.RegisterAuthorAtomic | internal/usecase/library/authors.go:17-44 | without a transaction, success is reported exactly when every step succeeds; the author and its `author_<id>` message are stored together when the commit goes through, and otherwise the database is unchanged |
| Library.GetBook | internal/usecase/library/books.go:68-79 | the response is the stored book with its linked authors; a missing book's error matches `ErrBookNotFound` |
| Library.ChangeBookInfo | internal/usecase/library/books.go:81-94 | passes id, name and authors through: fails exactly as the repository does, with its error, changing nothing; on success the book has the new name and is linked to exactly the requested authors |
| Library.ChangeBookInfoSendsNothing | internal/usecase/library/books.go:81-94 | changing a book never touches the outbox |
| Library.GetBooksByAuthor | internal/usecase/library/books.go:96-110 | returns the repository's error, or converts its list one to one and in order; every response is a stored book linked to the author, and every such book is present unless the row iterator broke |
| Library.ConvertAllReadsBack | internal/usecase/library/books.go:104-107 | every converted response reads back as one of the books |
| Library.ConvertAllKeepsIds | internal/usecase/library/books.go:104-107 | every book's id appears among the responses |
| Library.ConvertAll | internal/usecase/library/books.go:104-107 | one response per book, position by position |
| Library.GetAuthor | internal/usecase/library/authors.go:55-67 | the response is the stored author iff it exists; otherwise the error matches `ErrAuthorNotFound` |
| Library.ChangeAuthorInfo | internal/usecase/library/authors.go:69-81 | renames an existing author; an unknown one gives `ErrAuthorNotFound` and no change |
| Registry.Resolve | internal/app/app.go:115-129 | resolves exactly the kinds with a real name; book kinds get the book URL, author kinds the author URL |
| Registry.UnsupportedNamesKind | internal/app/app.go:125-126 | the error for any other kind ends in the kind's decimal number, which parses back to the kind |
| Controller.ConvertError | internal/controller/util.go:10-19 | NotFound iff the chain holds `ErrAuthorNotFound` or `ErrBookNotFound`, else Internal; the message is the error's text |
| Controller.ConvertErrorByChain | internal/controller/util.go:12-15 | the code depends only on which not-found sentinels appear in the wrap chain |
| Controller.MissingAuthorIsNotFound | internal/usecase/repository/postgres.go:36 | a book registered with an unknown author reaches the client as NotFound with the doubly wrapped message |
| Worker.Dispatch | internal/usecase/outbox/outbox.go:96-115 | the batch loop only resolves kinds and invokes handlers |
| Worker.DispatchKeepsOrder | internal/usecase/outbox/outbox.go:94-115 | the keys to mark are a subsequence of the claimed keys |
| Worker.DispatchMarksDelivered | internal/usecase/outbox/outbox.go:100-114 | a key is marked iff its message's kind resolved and its handler returned nil |
| Worker.DispatchSplits | internal/usecase/outbox/outbox.go:102-112 | a failing message affects only itself: a batch dispatches as its halves one after the other |
| Worker.DispatchAllDelivered | internal/usecase/outbox/outbox.go:96-115 | with every message delivered, every claimed key is marked, in claim order |
| Worker.Cycle | internal/usecase/outbox/outbox.go:77-126 | every cycle starts with the sleep, and a worker without a transaction stays without one |
| Worker.CycleDisabled | internal/usecase/outbox/outbox.go:80-82 | a disabled cycle only sleeps: no transaction and no store call |
| Worker.CycleRunsBody | internal/usecase/outbox/outbox.go:84-126 | an enabled cycle runs its body on a fresh transaction; on success its work is stored if the commit goes through, with no error either way; on error it is rolled back |
| Worker.CycleClaimFails | internal/usecase/outbox/outbox.go:85-90 | a failed claim invokes no handler, marks nothing, changes nothing and returns the claim error wrapped |
| Worker.CycleMarksOnce | internal/usecase/outbox/outbox.go:94-117 | after a successful claim there is exactly one mark call, last, even for an empty list, with the delivered keys in claim order |
| Worker.CycleOutcome | internal/usecase/outbox/outbox.go:117-123 | a failed mark rolls the claim back too; otherwise no error, and the claim and the marks are stored together unless the commit fails |
| Worker.CycleCommitLost | internal/usecase/repository/transactor.go:36-43 | after a failed commit the cycle leaves the world unchanged although its handlers ran, so every message it claimed stays claimable and is delivered again |
| Worker.CycleProgresses | internal/usecase/outbox/outbox.go:84-126 | no cycle removes a row or touches a SUCCESS row |
| Worker.WorkerLoop | internal/usecase/outbox/outbox.go:77-138 | every cycle runs to completion before cancellation is checked, the loop stops after the first enabled cycle that sees cancellation, and status only moves forward |
| Worker.DisabledNeverStops | internal/usecase/outbox/outbox.go:80-82 | a disabled cycle skips the cancellation check, so a worker that stays disabled never stops |
| Worker.SuccessStaysDone | internal/usecase/outbox/outbox.go:77-138 | a processed message is never claimed or changed again, however many cycles run |
| Worker.Start | internal/usecase/outbox/outbox.go:56-65 | launches exactly `workers` workers, none for a non-positive count, and returns nil |
| Config.ParseTime | config/config.go:104-112 | fails exactly as `parseInt` does, with its error; otherwise the value is the parsed number times `time.Millisecond`, wrapped to 64 bits, and exactly that product whenever it fits |
| Config.ParseTimeMillis | config/config.go:111 | reading a parsed time as whole milliseconds recovers the number written, when it fits |
| Config.ParseTimeWraps | config/config.go:111 | 9223372036855 ms wraps around to a negative Duration |
| Config.NewConfig | config/config.go:44-102 | every error is a parse error; the outbox is enabled iff the flag parses as true; disabled settings are all zero |
| Config.BadFlagFails | config/config.go:66-70 | an unparsable `OUTBOX_ENABLED` is the result's error |
| Config.DisabledIgnoresOutboxVars | config/config.go:72-99 | disabled, the outbox settings stay zero and removing the outbox variables from the environment changes nothing |
| Config.EnabledFirstFailure | config/config.go:72-95 | enabled, the settings parse in the order workers, batch, wait, TTL; the first failure is the error, and success carries all four values |

## Left out

- Concurrency is not modelled. That covers goroutines, the `WaitGroup`, the
  row locks and `SKIP LOCKED`, and therefore the disjointness of batches
  claimed by concurrent workers. Cycles run one at a time, and `Start`
  returns the ids of the workers it would launch.
- Time is an integer parameter. `time.Sleep` is only recorded in the trace.
  A worker's run is finite: it covers the ticks given to `WorkerLoop`.
- SQL text, pgx scanning and `CopyFrom` become operations on maps and
  sequences. A statement's failure is a single error parameter. Two loops
  never check `rows.Err()`. In `GetBooksByAuthor` a broken iterator has its
  own parameter, and the rows read so far come back with no error. In
  `ChangeBookInfo` a broken iterator is part of its `io` failure: it
  aborts the transaction, so the DELETE that follows fails and that error
  is returned.
- OutboxStore.GetMessages: when the stream of claimed rows breaks after
  some of them, Go returns the rows scanned so far together with
  `rows.Err()`. The model returns no rows with that error. Its only caller
  discards the value on error, and the failed cycle rolls the claim back.
- After a failed statement, Postgres aborts the transaction. The model does
  not track that aborted state: every caller either returns or rolls back
  at once.
- A rollback is assumed to succeed: it runs only after an error, which is
  what the caller returns, and whether it succeeds changes nothing in the
  model, since the transaction's writes are discarded either way. The
  explicit commit in `ChangeBookInfo` is part of its `io` failure.
- `author_book` has no primary key in the model, so duplicate links are
  possible. Only the foreign key on `author_id` is modelled; the table
  definitions are not part of this model.
- Postgres.ChangeBookInfo: it always writes through its own transaction
  straight to the committed tables. A transaction is modelled as a whole
  snapshot, so if a caller's transaction were open at the same time, the
  model's later commit of that snapshot would overwrite those rows, where
  Postgres would keep both transactions' writes. The model does not merge
  concurrent snapshots, and no property here depends on that case.
- `updated_at` maintenance on the book and author tables is not modelled.
  The updates keep the stored stamps.
- JSON serialisation is not modelled. It is a function parameter that may
  fail, and payloads are opaque bytes.
- The HTTP kind handlers, the logging, the gRPC/REST servers, request
  validation and the other controller handlers are not modelled.
- `GetBooksByAuthor` returns groups in an order Postgres leaves
  unspecified. The model uses a fixed order and proves nothing about it.
- OutboxStore.GetMessages: the rows an `UPDATE … RETURNING` returns come in
  an order Postgres does not fix. The model returns them in ascending
  `updated_at`, one allowed order. Which rows are claimed does not depend
  on it; the worker lemmas that speak of "claim order" mean this order.
- Postgres.GetBook: `array_agg` without `ORDER BY` lists a book's authors in
  an order Postgres does not fix. The model uses link-table order, one
  allowed order. Only the set of listed authors is what Postgres promises;
  the contracts that compare the list with `AuthorsOf` hold for this choice.
- Decimal.ParseInt: when a string both overflows and contains a bad
  character, Go reports whichever it meets first while scanning. The model
  always reports the syntax error.
- Config.NewConfig: the Postgres URL assembled with `net.JoinHostPort` is
  not modelled.
