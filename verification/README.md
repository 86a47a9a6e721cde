# Bookshelf `LibraryService` in Dafny

This project models the service layer of the bookshelf library (package `library/service`, Go).
`LibraryService` has three operations: `AddBook`, `GetBook` and `GetBooks`. Each one checks the
request's required fields, then makes at most one call to an injected `LibraryStore`. It returns
the store's answer unchanged, or the store's error wrapped under the operation's name.

The store is an abstract oracle (`Store.LibraryStore`). Each method's reply is a function of the
calls the store has received before and of the call's own arguments. Every deterministic store
can be described this way, so the model does not need a real store. Each operation returns an
`Outcome`. It holds the result, the calls the service makes to the store in order, and the
informational record logged, if any. This single ordered list differs from the recording test
double (service_test.go:199-257). The double keeps one list per store method and records a call
only when that method's stub is set.

Validation errors carry the operation prefix as well, for example "add book: title can't be
blank" (service.go:32). They are built without `%w`, so they wrap no cause. Only store errors are
wrapped, so only they can be unwrapped.

Files:
- `results.dfy`: `Result` (Go's value-or-error pair) and `Option`.
- `library.dfy`: `int64` and `Book`.
- `store.dfy`: the store interface as an oracle, its call log entries, the context token and store errors.
- `service.dfy`: requests, responses, service errors and their messages, and the three operations.
- `sessions.dfy`: a sequence of requests served against one store. The store's log is exactly one
  call per request that passes validation, in order.
- `scenarios.dfy`: the service's test table, against stub stores.

## Model

| member | source | states |
|---|---|---|
| Service.AddBook | library/service/service.go:30-45 | An empty title is refused as a blank title, even when the author is also empty. An empty author with a title is refused as a blank author. Neither refusal calls the store or wraps a cause. A valid request makes exactly one call, to CreateBook, with its own title and author. It succeeds exactly when the store does and returns the store's book unchanged. A store failure comes back as that error under the "add book" prefix. Only a success is logged, with the book's id and title. |
| Service.GetBook | library/service/service.go:55-67 | Id 0 is refused before any store call, with no cause. Any other id makes exactly one call, to GetBook, with that id. The store's book comes back unchanged, or its error comes back under "get book". Only a success is logged. |
| Service.GetBooks | library/service/service.go:76-82 | There is no validation. Exactly one call is made, to GetBooks. The list comes back with the same books, in the same order and of the same length, including the empty list. A failure is the store's error under "get books" and always has a cause. Nothing is logged. |
| Service.Message | library/service/service.go:30-82 | Every error's text starts with its operation's prefix and ": ". For a wrapped error, the rest of the text is the store error's own text. |
| Service.MessageNamesOperation | library/service/service.go:32-79 | The operation can be read back from any error message's prefix. "get book" and "get books" cannot be confused. |
| Service.AddBookConsultsOnlyCreateBook | library/service/service.go:38-41 | AddBook's outcome depends on the store only through CreateBook's reply to the one call made. A refused request does not depend on the store at all. |
| Service.GetBookConsultsOnlyGetBook | library/service/service.go:60-63 | GetBook's outcome depends on the store only through GetBook's reply to the one call made. A refused request does not depend on the store at all. |
| Service.GetBooksConsultsOnlyGetBooks | library/service/service.go:77-80 | GetBooks's outcome depends on the store only through its GetBooks reply. |
| Sessions.CallsAndRequestsCorrespond | library/service/service.go:11-15 | Store calls and service requests correspond one to one. A request passes validation exactly when its call is well formed, that is, when the request that call stands for is admitted. |
| Sessions.Handle | library/service/service.go:30-82 | Whichever operation is asked for, the store receives that request's own call if validation admits it, and nothing otherwise. The result is a validation error exactly when the request is not admitted. Every error names the request's own operation. Every response is of the request's own kind. An admitted request hands back the store's reply to its call: the book or list unchanged, or the store's error wrapped under the operation's prefix. |
| Sessions.Run | library/service/service.go:17-19 | Serving a sequence of requests with one service gives one result per request. The store's log only grows. |
| Sessions.RunResultsBelongToRequests | library/service/service.go:30-82 | Each result of a session belongs to its own request: an error names that request's operation, and a response is of that request's kind. |
| Sessions.RunResultIsHandle | library/service/service.go:30-82 | The i-th result of a session is exactly the service's answer to the i-th request. It is served against a store that has already received the calls of every earlier admitted request. |
| Sessions.RunLogIsExpected | library/service/service.go:30-82 | Whatever the store answers, a session appends to the store's log exactly the calls of the admitted requests, with their own arguments, in request order. |
| Sessions.ExpectedCallsCount | library/service/service.go:30-82 | The calls a request sequence should cause are exactly as many as the positions holding a request that passes validation. That count is defined as the size of the set of such positions, independently of how the calls are listed. With `SessionLog`, the store's log grows by exactly that many calls. |
| Sessions.ExpectedCallsWellFormed | library/service/service.go:31-36 | Validation guards the store: no call it receives has a blank title, a blank author or a zero id. |
| Sessions.SessionLog | library/service/service.go:30-82 | After a session, the store's log is the old log followed by one well-formed call per admitted request, and nothing else. |
| Sessions.LogIndependentOfStore | library/service/service.go:30-82 | The calls a session makes do not depend on what the store answers. No reply leads to a retry or to an extra call. |
| Sessions.RunRefusesExactlyInadmissible | library/service/service.go:31-57 | In a session, each request's result is a validation error exactly when that request fails validation. |
| Scenarios.AddBookAgainstEchoingStore | library/service/service_test.go:40-81 | The store echoes title and author under id 123. Every valid AddBook request makes one call with its own fields and gets back `Book(123, title, author)`. Every other request is refused without a call. |
| Scenarios.AddBookTable | library/service/service_test.go:19-34 | All four rows of the AddBook test table: an empty request, a blank title, a blank author, and the happy path returning id 123. |
| Scenarios.GetBookTable | library/service/service_test.go:91-98 | Id 0 is refused. Id 123 is looked up with one call and returns "Dune" by Frank Herbert. |
| Scenarios.GetBooksTwoBooks | library/service/service_test.go:148-196 | GetBooks makes one call and returns the stub's two books in the stub's order. |
| Scenarios.GetBooksWithoutStub | library/service/service_test.go:249-252 | A store with no GetBooks stub fails. The service returns the mock's error under "get books", with the message "get books: mock not implemented". |

## Left out

- `log.Printf` output (service.go:42, 64). The model records what would be logged (`LogRecord`), not the formatted text.
- `context.Context`. It is modelled as an opaque token (`Store.Context`) that is passed to the store unchanged. Cancellation and deadlines belong to the store and are not modelled.
- Go pointers and nil. A store reply is either a book or an error, never both and never neither. A store that reports success with a nil book, or fails and still returns a book, cannot be expressed. A nil slice and an empty slice are both the empty sequence.
- Concrete store implementations and the `library` package's internals. `Book` is a plain value with an id, a title and an author, and the store is any deterministic oracle.
- Concurrency. Each call is one synchronous step. Two requests served at once against a shared store are not modelled.
- The Go `error` chain beyond one level. `Unwrap` exposes the store error. What that error itself wraps is not modelled.
