/** The `LibraryStore` interface the service depends on, as an abstract oracle. */
module Store {
  import opened Results
  import opened Library

  /** The request context (cancellation, deadline). The service never looks inside it; it only
      hands it on to the store. */
  datatype Context = Context(token: nat)

  /** An error reported by the store; `message` is the text its `Error()` method returns. */
  datatype StoreError = StoreError(message: string)

  /** One call the service makes to the store, with the arguments it passes. */
  datatype StoreCall =
    | CreateBookCall(ctx: Context, title: string, author: string)
    | GetBookCall(ctx: Context, id: int64)
    | GetBooksCall(ctx: Context)

  /** A store, seen from outside: each method's reply is a function of the calls the store has
      received before and of the call's own arguments. Every deterministic store implementation,
      whatever it keeps inside, is described by such three functions. */
  datatype LibraryStore = LibraryStore(
    createBook: (seq<StoreCall>, Context, string, string) -> Result<Book, StoreError>,
    getBook: (seq<StoreCall>, Context, int64) -> Result<Book, StoreError>,
    getBooks: (seq<StoreCall>, Context) -> Result<seq<Book>, StoreError>)
}
