/** `NewConfig` of config/config.go with the environment passed in as a map:
    the outbox settings are parsed only when the outbox is enabled, in a
    fixed order, and the first failure aborts. */
module Config {
  import opened Wrappers
  import opened Errors
  import opened Decimal
  import opened Durations

  type Env = map<string, string>

  /** `os.Getenv`: the empty string for an unset variable. */
  function Getenv(env: Env, name: string): string
  {
    if name in env then env[name] else ""
  }

  const Enabled: string := "OUTBOX_ENABLED"
  const Workers: string := "OUTBOX_WORKERS"
  const BatchSize: string := "OUTBOX_BATCH_SIZE"
  const WaitTime: string := "OUTBOX_WAIT_TIME_MS"
  const InProgressTtl: string := "OUTBOX_IN_PROGRESS_TTL_MS"
  const BookSendUrl: string := "OUTBOX_BOOK_SEND_URL"
  const AuthorSendUrl: string := "OUTBOX_AUTHOR_SEND_URL"

  /** The variables only an enabled outbox reads. */
  const OutboxOnly: set<string> := {Workers, BatchSize, WaitTime, InProgressTtl, BookSendUrl, AuthorSendUrl}

  datatype Grpc = Grpc(port: string, gatewayPort: string)
  datatype Postgres = Postgres(host: string, port: string, db: string, user: string, password: string, maxConn: string)
  datatype Outbox = Outbox(enabled: bool, workers: int, batchSize: int, waitTime: Duration,
                           inProgressTtl: Duration, bookSendUrl: string, authorSendUrl: string)
  datatype Config = Config(grpc: Grpc, pg: Postgres, outbox: Outbox)

  const DisabledOutbox: Outbox := Outbox(false, 0, 0, 0, 0, "", "")

  /** `parseTime`: a whole number of milliseconds as a Duration, with Go's
      int64 wrap-around on the multiplication; parse errors pass through. */
  function ParseTime(s: string): (r: Result<Duration, Error>)
    ensures r.Fail? <==> ParseInt(s).Fail?
    ensures r.Fail? ==> r.error == ParseInt(s).error
    ensures r.Ok? ==> InInt64(r.value)
    ensures r.Ok? ==> r.value == FromMillis(ParseInt(s).value)
    ensures r.Ok? && InInt64(ParseInt(s).value * Millisecond) ==> r.value == ParseInt(s).value * Millisecond
  {
    match ParseInt(s)
    case Fail(e) => Fail(e)
    case Ok(ms) => Ok(FromMillis(ms))
  }

  /** Reading a parsed time back as whole milliseconds gives the number
      written, whenever it fits in a Duration. */
  lemma ParseTimeMillis(s: string)
    requires ParseInt(s).Ok? && InInt64(ParseInt(s).value * Millisecond)
    ensures Milliseconds(ParseTime(s).value) == ParseInt(s).value
  {
    MillisRoundTrip(ParseInt(s).value);
  }

  /** Past about 292 years the multiplication wraps: a huge wait time comes
      out negative. */
  lemma ParseTimeWraps(s: string)
    requires ParseInt(s) == Ok(9_223_372_036_855)
    ensures ParseTime(s) == Ok(-9_223_372_036_854_551_616)
  {
    var x := 9_223_372_036_855 * Millisecond;
    assert x == 9_223_372_036_855_000_000;
    assert x - MinInt64 == 0x1_0000_0000_0000_0000 + 224_192;
    assert Wrap64(x) == 224_192 + MinInt64;
  }

  /** The wrapping example is a real input: the decimal text of the number. */
  lemma WrapExampleParses()
    ensures ParseInt(FormatInt(9_223_372_036_855)) == Ok(9_223_372_036_855)
  {
    ParseFormatRoundTrip(9_223_372_036_855);
  }

  /** The settings read whether or not the outbox is enabled. */
  function Base(env: Env): Config
  {
    Config(Grpc(Getenv(env, "GRPC_PORT"), Getenv(env, "GRPC_GATEWAY_PORT")),
           Postgres(Getenv(env, "POSTGRES_HOST"), Getenv(env, "POSTGRES_PORT"), Getenv(env, "POSTGRES_DB"),
              Getenv(env, "POSTGRES_USER"), Getenv(env, "POSTGRES_PASSWORD"), Getenv(env, "POSTGRES_MAX_CONN")),
           DisabledOutbox)
  }

  /** `NewConfig` */
  function NewConfig(env: Env): (r: Result<Config, Error>)
    ensures r.Fail? ==> r.error.Num?
    ensures r.Ok? ==> r.value.outbox.enabled == (ParseBool(Getenv(env, Enabled)) == Ok(true))
    ensures r.Ok? && !r.value.outbox.enabled ==> r.value.outbox == DisabledOutbox
  {
    match ParseBool(Getenv(env, Enabled))
    case Fail(e) => Fail(e)
    case Ok(enabled) =>
      if !enabled then Ok(Base(env))
      else
        match ParseInt(Getenv(env, Workers))
        case Fail(e) => Fail(e)
        case Ok(workers) =>
          match ParseInt(Getenv(env, BatchSize))
          case Fail(e) => Fail(e)
          case Ok(batch) =>
            match ParseTime(Getenv(env, WaitTime))
            case Fail(e) => Fail(e)
            case Ok(wait) =>
              match ParseTime(Getenv(env, InProgressTtl))
              case Fail(e) => Fail(e)
              case Ok(ttl) =>
                Ok(Base(env).(outbox := Outbox(true, workers, batch, wait, ttl,
                                               Getenv(env, BookSendUrl), Getenv(env, AuthorSendUrl))))
  }

  /** An unreadable enabled flag is the whole result. */
  lemma BadFlagFails(env: Env)
    requires ParseBool(Getenv(env, Enabled)).Fail?
    ensures NewConfig(env) == Fail(Num("ParseBool", Getenv(env, Enabled), false))
  {
  }

  /** Disabled, the outbox settings stay zero and their variables are never
      read: removing them from the environment changes nothing. */
  lemma DisabledIgnoresOutboxVars(env: Env)
    requires ParseBool(Getenv(env, Enabled)) == Ok(false)
    ensures NewConfig(env).Ok? && NewConfig(env).value.outbox == DisabledOutbox
    ensures NewConfig(env) == NewConfig(env - OutboxOnly)
  {
    var env' := env - OutboxOnly;
    assert Getenv(env', Enabled) == Getenv(env, Enabled);
    assert Base(env') == Base(env);
  }

  /** Enabled, the numbers are parsed in the order workers, batch size, wait
      time, TTL, and the first that fails is the error. */
  lemma EnabledFirstFailure(env: Env)
    requires ParseBool(Getenv(env, Enabled)) == Ok(true)
    ensures var w, b := ParseInt(Getenv(env, Workers)), ParseInt(Getenv(env, BatchSize));
      var wt, ttl := ParseTime(Getenv(env, WaitTime)), ParseTime(Getenv(env, InProgressTtl));
      && (w.Fail? ==> NewConfig(env) == Fail(w.error))
      && (w.Ok? && b.Fail? ==> NewConfig(env) == Fail(b.error))
      && (w.Ok? && b.Ok? && wt.Fail? ==> NewConfig(env) == Fail(wt.error))
      && (w.Ok? && b.Ok? && wt.Ok? && ttl.Fail? ==> NewConfig(env) == Fail(ttl.error))
      && (NewConfig(env).Ok? <==> w.Ok? && b.Ok? && wt.Ok? && ttl.Ok?)
      && (NewConfig(env).Ok? ==>
            NewConfig(env).value.outbox == Outbox(true, w.value, b.value, wt.value, ttl.value,
                                                  Getenv(env, BookSendUrl), Getenv(env, AuthorSendUrl)))
  {
  }
}
