/** `LibraryService`: validates each request, makes at most one call to the injected store, and
    hands back the store's answer unchanged or its error wrapped under the operation's name. */
module Service {
  import opened Results
  import opened Library
  import opened Store

  /** The three operations of the service; each names its errors by a fixed prefix. */
  datatype Op = AddBookOp | GetBookOp | GetBooksOp

  /** The reasons a request is refused before the store is consulted. */
  datatype ValidationFailure = BlankTitle | BlankAuthor | MissingId

  /** An error returned by the service: either a refusal raised by the service itself, which wraps
      nothing, or a store error wrapped (`%w`) under the operation's prefix. */
  datatype ServiceError =
    | Validation(op: Op, failure: ValidationFailure)
    | Wrapped(op: Op, cause: StoreError)

  function Prefix(op: Op): string {
    match op
    case AddBookOp => "add book"
    case GetBookOp => "get book"
    case GetBooksOp => "get books"
  }

  function Reason(f: ValidationFailure): string {
    match f
    case BlankTitle => "title can't be blank"
    case BlankAuthor => "author can't be blank"
    case MissingId => "id is required"
  }

  /** The text `Error()` returns: the operation's prefix, a colon, then the reason or the cause's
      own text. */
  function Message(e: ServiceError): (m: string)
    ensures Prefix(e.op) + ": " <= m
    ensures e.Wrapped? ==> m[|Prefix(e.op)| + 2..] == e.cause.message
  {
    Prefix(e.op) + ": " + match e
      case Validation(_, f) => Reason(f)
      case Wrapped(_, c) => c.message
  }

  /** `errors.Unwrap`: the store error a service error carries, if any. */
  function Unwrap(e: ServiceError): Option<StoreError> {
    match e
    case Validation(_, _) => None
    case Wrapped(_, c) => Some(c)
  }

  /** Which operation an error message names, read back from its prefix. */
  function OperationOf(m: string): Option<Op> {
    if Prefix(AddBookOp) + ": " <= m then Some(AddBookOp)
    else if Prefix(GetBookOp) + ": " <= m then Some(GetBookOp)
    else if Prefix(GetBooksOp) + ": " <= m then Some(GetBooksOp)
    else None
  }

  /** Every error message names the operation that failed: the three prefixes cannot be confused,
      not even "get book" with "get books". */
  lemma MessageNamesOperation(e: ServiceError)
    ensures OperationOf(Message(e)) == Some(e.op)
  {
    var m := Message(e);
    assert Prefix(e.op) + ": " <= m;
    match e.op
    case AddBookOp =>
    case GetBookOp =>
      assert m[0] == 'g';
    case GetBooksOp =>
      assert m[0] == 'g' && m[8] == 's';
  }

  datatype AddBookRequest = AddBookRequest(title: string, author: string)
  datatype AddBookResponse = AddBookResponse(book: Book)
  datatype GetBookRequest = GetBookRequest(id: int64)
  datatype GetBookResponse = GetBookResponse(book: Book)
  datatype GetBooksRequest = GetBooksRequest
  datatype GetBooksResponse = GetBooksResponse(books: seq<Book>)

  /** The informational record written on a successful single-book operation. */
  datatype LogRecord = AddedBook(id: int64, title: string) | GotBook(id: int64, title: string)

  /** Everything one service call does: its result, the calls it made to the store (in order),
      and the record it logged, if any. */
  datatype Outcome<+R> = Outcome(result: Result<R, ServiceError>, calls: seq<StoreCall>, logged: Option<LogRecord>)

  /** A request refused by validation: an error, no store call, nothing logged. */
  function Rejected<R>(op: Op, f: ValidationFailure): Outcome<R> {
    Outcome(Err(Validation(op, f)), [], None)
  }

  /** `AddBook`. `prior` is the list of calls the store has received before this one. */
  function AddBook(store: LibraryStore, prior: seq<StoreCall>, ctx: Context, req: AddBookRequest)
    : (out: Outcome<AddBookResponse>)
    // Validation comes before any store call, and the title is checked before the author.
    ensures req.title == "" ==> out == Rejected(AddBookOp, BlankTitle)
    ensures req.title != "" && req.author == "" ==> out == Rejected(AddBookOp, BlankAuthor)
    // A request that passes validation makes exactly one call, to CreateBook, with its own fields.
    ensures req.title != "" && req.author != "" ==> out.calls == [CreateBookCall(ctx, req.title, req.author)]
    ensures var reply := store.createBook(prior, ctx, req.title, req.author);
      // Success is exactly the store's success, and hands back the store's book unchanged.
      && (out.result.Ok? <==> out.calls != [] && reply.Ok?)
      && (out.result.Ok? ==> out.result.value.book == reply.value)
      // A failure carries a cause exactly when the store was called, and then it is the store's
      // error under the "add book" prefix.
      && (out.result.Err? ==> (Unwrap(out.result.error).None? <==> out.calls == []))
      && (out.result.Err? && out.calls != [] ==> out.result.error == Wrapped(AddBookOp, reply.error))
    // Success, and only success, is logged, with the new book's id and title.
    ensures out.logged.Some? <==> out.result.Ok?
    ensures out.result.Ok? ==> out.logged.value == AddedBook(out.result.value.book.id, out.result.value.book.title)
  {
    if req.title == "" then Rejected(AddBookOp, BlankTitle)
    else if req.author == "" then Rejected(AddBookOp, BlankAuthor)
    else
      var call := CreateBookCall(ctx, req.title, req.author);
      match store.createBook(prior, ctx, req.title, req.author)
      case Err(e) => Outcome(Err(Wrapped(AddBookOp, e)), [call], None)
      case Ok(book) => Outcome(Ok(AddBookResponse(book)), [call], Some(AddedBook(book.id, book.title)))
  }

  /** `GetBook`. */
  function GetBook(store: LibraryStore, prior: seq<StoreCall>, ctx: Context, req: GetBookRequest)
    : (out: Outcome<GetBookResponse>)
    // The zero id is refused before any store call.
    ensures req.id == 0 ==> out == Rejected(GetBookOp, MissingId)
    // Any other id makes exactly one call, to GetBook, with that id.
    ensures req.id != 0 ==> out.calls == [GetBookCall(ctx, req.id)]
    ensures var reply := store.getBook(prior, ctx, req.id);
      && (out.result.Ok? <==> out.calls != [] && reply.Ok?)
      && (out.result.Ok? ==> out.result.value.book == reply.value)
      && (out.result.Err? ==> (Unwrap(out.result.error).None? <==> out.calls == []))
      && (out.result.Err? && out.calls != [] ==> out.result.error == Wrapped(GetBookOp, reply.error))
    ensures out.logged.Some? <==> out.result.Ok?
    ensures out.result.Ok? ==> out.logged.value == GotBook(out.result.value.book.id, out.result.value.book.title)
  {
    if req.id == 0 then Rejected(GetBookOp, MissingId)
    else
      var call := GetBookCall(ctx, req.id);
      match store.getBook(prior, ctx, req.id)
      case Err(e) => Outcome(Err(Wrapped(GetBookOp, e)), [call], None)
      case Ok(book) => Outcome(Ok(GetBookResponse(book)), [call], Some(GotBook(book.id, book.title)))
  }

  /** `GetBooks`: nothing to validate, one call, no log record. */
  function GetBooks(store: LibraryStore, prior: seq<StoreCall>, ctx: Context, req: GetBooksRequest)
    : (out: Outcome<GetBooksResponse>)
    ensures out.calls == [GetBooksCall(ctx)]
    ensures var reply := store.getBooks(prior, ctx);
      // The list comes back as the store gave it: same books, same order, same length, empty or not.
      && (out.result.Ok? <==> reply.Ok?)
      && (out.result.Ok? ==> out.result.value.books == reply.value)
      && (out.result.Err? ==> out.result.error == Wrapped(GetBooksOp, reply.error))
    ensures out.result.Err? ==> Unwrap(out.result.error).Some?
    ensures out.logged == None
  {
    match store.getBooks(prior, ctx)
    case Err(e) => Outcome(Err(Wrapped(GetBooksOp, e)), [GetBooksCall(ctx)], None)
    case Ok(books) => Outcome(Ok(GetBooksResponse(books)), [GetBooksCall(ctx)], None)
  }

  /** The outcome of a request never depends on the store when validation refuses it, and otherwise
      depends on the store only through its reply to the one call made: no other method is
      consulted, and nothing is retried. */
  lemma AddBookConsultsOnlyCreateBook(s1: LibraryStore, s2: LibraryStore, prior: seq<StoreCall>, ctx: Context, req: AddBookRequest)
    requires req.title != "" && req.author != "" ==>
      s1.createBook(prior, ctx, req.title, req.author) == s2.createBook(prior, ctx, req.title, req.author)
    ensures AddBook(s1, prior, ctx, req) == AddBook(s2, prior, ctx, req)
  {
  }

  lemma GetBookConsultsOnlyGetBook(s1: LibraryStore, s2: LibraryStore, prior: seq<StoreCall>, ctx: Context, req: GetBookRequest)
    requires req.id != 0 ==> s1.getBook(prior, ctx, req.id) == s2.getBook(prior, ctx, req.id)
    ensures GetBook(s1, prior, ctx, req) == GetBook(s2, prior, ctx, req)
  {
  }

  lemma GetBooksConsultsOnlyGetBooks(s1: LibraryStore, s2: LibraryStore, prior: seq<StoreCall>, ctx: Context, req: GetBooksRequest)
    requires s1.getBooks(prior, ctx) == s2.getBooks(prior, ctx)
    ensures GetBooks(s1, prior, ctx, req) == GetBooks(s2, prior, ctx, req)
  {
  }
}
