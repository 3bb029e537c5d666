/** Go error values as the code uses them: sentinel errors compared with
    `errors.Is`, wrapping with `fmt.Errorf("...: %w", err)`, Postgres errors
    found with `errors.As`, and opaque driver or I/O failures. */
module Errors {
  import opened Wrappers

  /** The sentinel error variables the repository defines or uses. */
  datatype Sentinel =
    | AuthorNotFound   // entity.ErrAuthorNotFound
    | BookNotFound     // entity.ErrBookNotFound
    | TxNotFound       // repository.ErrTxNotFound
    | TxClosed         // pgx.ErrTxClosed: a statement on an ended transaction
    | NoRows           // pgx.ErrNoRows

  datatype Error =
    | Known(sentinel: Sentinel)
      /** `fmt.Errorf(prefix + ": %w", inner)` */
    | Wrapped(prefix: string, inner: Error)
      /** `*pgconn.PgError` with its SQLSTATE code */
    | Pg(code: string, message: string)
      /** A `*strconv.NumError` from `strconv.ParseInt` / `strconv.ParseBool` */
    | Num(func: string, input: string, outOfRange: bool)
      /** Any other error: network, I/O, `errors.New`, `fmt.Errorf` without `%w` */
    | Failure(message: string)

  /** SQLSTATE of a foreign key violation. */
  const ForeignKeyViolation: string := "23503"
  /** SQLSTATE of a unique violation. */
  const UniqueViolation: string := "23505"
  /** SQLSTATE Postgres reports for a negative LIMIT. */
  const InvalidRowCountInLimit: string := "2201W"

  function SentinelText(s: Sentinel): string
  {
    match s
    case AuthorNotFound => "author not found"
    case BookNotFound => "book not found"
    case TxNotFound => "transaction not found"
    case TxClosed => "tx is closed"
    case NoRows => "no rows in result set"
  }

  /** `err.Error()` */
  function Text(e: Error): string
  {
    match e
    case Known(s) => SentinelText(s)
    case Wrapped(p, inner) => p + ": " + Text(inner)
    case Pg(code, msg) => "ERROR: " + msg + " (SQLSTATE " + code + ")"
    case Num(f, input, r) =>
      "strconv." + f + ": parsing \"" + input + "\": " + (if r then "value out of range" else "invalid syntax")
    case Failure(msg) => msg
  }

  /** `errors.Is(e, target)` for a sentinel target: some error in the chain is it. */
  predicate Is(e: Error, s: Sentinel)
  {
    match e
    case Known(t) => t == s
    case Wrapped(_, inner) => Is(inner, s)
    case _ => false
  }

  /** `errors.As(e, &pgErr)`: the SQLSTATE of the first Postgres error in the chain. */
  function AsPg(e: Error): Option<string>
  {
    match e
    case Pg(code, _) => Some(code)
    case Wrapped(_, inner) => AsPg(inner)
    case _ => None
  }

  /** The chain of `e` from the outermost error to the innermost one. */
  function Chain(e: Error): (c: seq<Error>)
    ensures |c| > 0 && c[0] == e
  {
    match e
    case Wrapped(_, inner) => [e] + Chain(inner)
    case _ => [e]
  }

  /** `errors.Is` holds exactly when the sentinel occurs somewhere in the chain. */
  lemma {:induction false} IsMeansInChain(e: Error, s: Sentinel)
    ensures Is(e, s) <==> Known(s) in Chain(e)
  {
    match e
    case Wrapped(_, inner) =>
      IsMeansInChain(inner, s);
      assert Chain(e) == [e] + Chain(inner);
    case _ =>
  }
}
