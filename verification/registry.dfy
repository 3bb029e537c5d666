/** The kind registry of internal/app/app.go (`globalOutboxHandler`): which
    handler a message kind is delivered with. A handler is named by the
    entity it posts and the URL it posts to; the HTTP call itself is not
    part of this model. */
module Registry {
  import opened Wrappers
  import opened Errors
  import opened Decimal
  import opened Kinds

  datatype Handler = BookHandler(url: string) | AuthorHandler(url: string)

  const UnsupportedPrefix: string := "unsupported outbox kind: "

  /** The message of the error for a kind with no handler (`%d`). */
  function Unsupported(kind: OutboxKind): Error
  {
    Failure(UnsupportedPrefix + FormatInt(kind))
  }

  /** Resolve a kind: book messages go to the book URL, author messages to
      the author URL, and every other kind is an error. */
  function Resolve(bookUrl: string, authorUrl: string, kind: OutboxKind): (r: Result<Handler, Error>)
    ensures r.Ok? <==> KindName(kind) != "undefined"
    ensures r.Ok? ==> (r.value.BookHandler? <==> KindName(kind) == "book")
    ensures r.Ok? && r.value.BookHandler? ==> r.value.url == bookUrl
    ensures r.Ok? && r.value.AuthorHandler? ==> r.value.url == authorUrl
  {
    if kind == KindBook then Ok(BookHandler(bookUrl))
    else if kind == KindAuthor then Ok(AuthorHandler(authorUrl))
    else Fail(Unsupported(kind))
  }

  /** The error names the offending kind: its decimal number reads back as
      the kind (Go's `int` is 64 bits wide). */
  lemma UnsupportedNamesKind(bookUrl: string, authorUrl: string, kind: OutboxKind)
    requires InInt64(kind)
    requires kind != KindBook && kind != KindAuthor
    ensures var r := Resolve(bookUrl, authorUrl, kind);
      && r.Fail?
      && |Text(r.error)| >= |UnsupportedPrefix|
      && Text(r.error)[..|UnsupportedPrefix|] == UnsupportedPrefix
      && ParseInt(Text(r.error)[|UnsupportedPrefix|..]) == Ok(kind)
  {
    var t := Text(Resolve(bookUrl, authorUrl, kind).error);
    assert t[|UnsupportedPrefix|..] == FormatInt(kind);
    ParseFormatRoundTrip(kind);
  }
}
