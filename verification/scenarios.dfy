/** The service's test table, restated against the recording test double: a store whose methods
    either answer from a stub or, when no stub is set, fail with "mock not implemented". */
module Scenarios {
  import opened Results
  import opened Library
  import opened Store
  import opened Service

  const NotImplemented := StoreError("mock not implemented")

  /** A store whose CreateBook stub echoes the title and author under id 123. */
  function CreatingStore(): LibraryStore {
    LibraryStore(
      (prior, ctx, title, author) => Ok(Book(123, title, author)),
      (prior, ctx, id) => Err(NotImplemented),
      (prior, ctx) => Err(NotImplemented))
  }

  /** A store whose GetBook stub returns "Dune" under the id it is asked for. */
  function FindingStore(): LibraryStore {
    LibraryStore(
      (prior, ctx, title, author) => Err(NotImplemented),
      (prior, ctx, id) => Ok(Book(id, "Dune", "Frank Herbert")),
      (prior, ctx) => Err(NotImplemented))
  }

  /** A store whose GetBooks stub returns two books. */
  function ListingStore(): LibraryStore {
    LibraryStore(
      (prior, ctx, title, author) => Err(NotImplemented),
      (prior, ctx, id) => Err(NotImplemented),
      (prior, ctx) => Ok([Book(123, "Dune", "Frank Herbert"), Book(456, "The Silmarillion", "J.R.R. Tolkien")]))
  }

  /** Against the echoing store, every admissible AddBook request gets back a book with id 123
      and its own title and author; every other request is refused without a store call. */
  lemma AddBookAgainstEchoingStore(prior: seq<StoreCall>, ctx: Context, req: AddBookRequest)
    ensures var out := AddBook(CreatingStore(), prior, ctx, req);
      if req.title != "" && req.author != "" then
        && out.calls == [CreateBookCall(ctx, req.title, req.author)]
        && out.result == Ok(AddBookResponse(Book(123, req.title, req.author)))
      else
        out.result.Err? && out.calls == []
  {
  }

  /** The four rows of the AddBook test table. */
  lemma AddBookTable(prior: seq<StoreCall>, ctx: Context)
    ensures AddBook(CreatingStore(), prior, ctx, AddBookRequest("", "")) == Rejected(AddBookOp, BlankTitle)
    ensures AddBook(CreatingStore(), prior, ctx, AddBookRequest("", "Frank Herbert")) == Rejected(AddBookOp, BlankTitle)
    ensures AddBook(CreatingStore(), prior, ctx, AddBookRequest("Dune", "")) == Rejected(AddBookOp, BlankAuthor)
    ensures var out := AddBook(CreatingStore(), prior, ctx, AddBookRequest("Dune", "Frank Herbert"));
      && out.calls == [CreateBookCall(ctx, "Dune", "Frank Herbert")]
      && out.result.Ok? && out.result.value.book.id == 123
  {
  }

  /** The two rows of the GetBook test table: id 0 is refused, id 123 is looked up once. */
  lemma GetBookTable(prior: seq<StoreCall>, ctx: Context)
    ensures GetBook(FindingStore(), prior, ctx, GetBookRequest(0)) == Rejected(GetBookOp, MissingId)
    ensures var out := GetBook(FindingStore(), prior, ctx, GetBookRequest(123));
      && out.calls == [GetBookCall(ctx, 123)]
      && out.result == Ok(GetBookResponse(Book(123, "Dune", "Frank Herbert")))
  {
  }

  /** GetBooks returns both books, in the store's order, after one call. */
  lemma GetBooksTwoBooks(prior: seq<StoreCall>, ctx: Context)
    ensures var out := GetBooks(ListingStore(), prior, ctx, GetBooksRequest);
      && out.calls == [GetBooksCall(ctx)]
      && out.result == Ok(GetBooksResponse([Book(123, "Dune", "Frank Herbert"), Book(456, "The Silmarillion", "J.R.R. Tolkien")]))
  {
  }

  /** A store with no stub makes GetBooks fail with the mock's error wrapped under "get books". */
  lemma GetBooksWithoutStub(prior: seq<StoreCall>, ctx: Context)
    ensures var out := GetBooks(CreatingStore(), prior, ctx, GetBooksRequest);
      && out.result == Err(Wrapped(GetBooksOp, NotImplemented))
      && Message(out.result.error) == "get books: mock not implemented"
  {
    assert Message(Wrapped(GetBooksOp, NotImplemented)) == "get books" + ": " + "mock not implemented";
  }
}
