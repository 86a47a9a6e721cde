/** A session: a sequence of requests served one after another by one `LibraryService` over one
    store. It lifts the per-call contracts to whole histories: the store's log is exactly the calls
    of the requests that pass validation, in order, whatever the store answers. */
module Sessions {
  import opened Results
  import opened Store
  import opened Service

  /** A request to any of the three operations, with its context. */
  datatype Request =
    | AddBookReq(ctx: Context, add: AddBookRequest)
    | GetBookReq(ctx: Context, get: GetBookRequest)
    | GetBooksReq(ctx: Context, list: GetBooksRequest)

  datatype Response =
    | Added(added: AddBookResponse)
    | Got(got: GetBookResponse)
    | Listed(listed: GetBooksResponse)

  /** Whether a request passes the service's validation, decided from the request alone. */
  predicate Admissible(r: Request) {
    match r
    case AddBookReq(_, a) => a.title != "" && a.author != ""
    case GetBookReq(_, g) => g.id != 0
    case GetBooksReq(_, _) => true
  }

  /** The store call that stands for a request: same method, same arguments. */
  function CallFor(r: Request): StoreCall {
    match r
    case AddBookReq(ctx, a) => CreateBookCall(ctx, a.title, a.author)
    case GetBookReq(ctx, g) => GetBookCall(ctx, g.id)
    case GetBooksReq(ctx, _) => GetBooksCall(ctx)
  }

  /** The request a store call stands for. */
  function RequestFor(c: StoreCall): Request {
    match c
    case CreateBookCall(ctx, title, author) => AddBookReq(ctx, AddBookRequest(title, author))
    case GetBookCall(ctx, id) => GetBookReq(ctx, GetBookRequest(id))
    case GetBooksCall(ctx) => GetBooksReq(ctx, GetBooksRequest)
  }

  /** A store call that validation lets through: its request has no blank title or author and no
      zero id. */
  predicate WellFormed(c: StoreCall) {
    Admissible(RequestFor(c))
  }

  /** The operation a request names. */
  function OpOf(r: Request): Op {
    match r
    case AddBookReq(_, _) => AddBookOp
    case GetBookReq(_, _) => GetBookOp
    case GetBooksReq(_, _) => GetBooksOp
  }

  /** Whether a response is of the kind the request's operation returns. */
  predicate Answers(r: Request, resp: Response) {
    match r
    case AddBookReq(_, _) => resp.Added?
    case GetBookReq(_, _) => resp.Got?
    case GetBooksReq(_, _) => resp.Listed?
  }

  /** Requests and store calls correspond one to one, and the admissible requests are exactly the
      ones whose calls are well formed. */
  lemma CallsAndRequestsCorrespond(r: Request, c: StoreCall)
    ensures CallFor(RequestFor(c)) == c
    ensures RequestFor(CallFor(r)) == r
    ensures Admissible(r) <==> WellFormed(CallFor(r))
  {
  }

  function Lift<T, R>(res: Result<T, ServiceError>, wrap: T -> R): Result<R, ServiceError> {
    match res
    case Ok(v) => Ok(wrap(v))
    case Err(e) => Err(e)
  }

  /** Serve one request with the operation it names. */
  function Handle(store: LibraryStore, prior: seq<StoreCall>, r: Request): (out: Outcome<Response>)
    // The store receives the request's own call if validation admits it, and nothing otherwise.
    ensures out.calls == if Admissible(r) then [CallFor(r)] else []
    // Validation errors are exactly the refusals of inadmissible requests.
    ensures (out.result.Err? && out.result.error.Validation?) <==> !Admissible(r)
    // Every error names the request's own operation; every response is of the request's own kind.
    ensures out.result.Err? ==> out.result.error.op == OpOf(r)
    ensures out.result.Ok? ==> Answers(r, out.result.value)
    // An admitted request hands back the store's reply to its call: the value unchanged, or the
    // store's error wrapped under the request's operation.
    ensures r.AddBookReq? && Admissible(r) ==>
      var reply := store.createBook(prior, r.ctx, r.add.title, r.add.author);
      && (out.result.Ok? <==> reply.Ok?)
      && (out.result.Ok? ==> out.result.value.added.book == reply.value)
      && (out.result.Err? ==> out.result.error == Wrapped(AddBookOp, reply.error))
    ensures r.GetBookReq? && Admissible(r) ==>
      var reply := store.getBook(prior, r.ctx, r.get.id);
      && (out.result.Ok? <==> reply.Ok?)
      && (out.result.Ok? ==> out.result.value.got.book == reply.value)
      && (out.result.Err? ==> out.result.error == Wrapped(GetBookOp, reply.error))
    ensures r.GetBooksReq? ==>
      var reply := store.getBooks(prior, r.ctx);
      && (out.result.Ok? <==> reply.Ok?)
      && (out.result.Ok? ==> out.result.value.listed.books == reply.value)
      && (out.result.Err? ==> out.result.error == Wrapped(GetBooksOp, reply.error))
  {
    match r
    case AddBookReq(ctx, a) =>
      var o := AddBook(store, prior, ctx, a);
      Outcome(Lift(o.result, x => Added(x)), o.calls, o.logged)
    case GetBookReq(ctx, g) =>
      var o := GetBook(store, prior, ctx, g);
      Outcome(Lift(o.result, x => Got(x)), o.calls, o.logged)
    case GetBooksReq(ctx, l) =>
      var o := GetBooks(store, prior, ctx, l);
      Outcome(Lift(o.result, x => Listed(x)), o.calls, o.logged)
  }

  /** The results of a session, and the store's log at its end. */
  datatype Trace = Trace(results: seq<Result<Response, ServiceError>>, log: seq<StoreCall>)

  /** Serve `reqs` in order against a store that has already received `log`. */
  function Run(store: LibraryStore, log: seq<StoreCall>, reqs: seq<Request>): (t: Trace)
    ensures |t.results| == |reqs|
    // The store's log only grows.
    ensures log <= t.log
    decreases |reqs|
  {
    if reqs == [] then Trace([], log)
    else
      var out := Handle(store, log, reqs[0]);
      var rest := Run(store, log + out.calls, reqs[1..]);
      Trace([out.result] + rest.results, rest.log)
  }

  /** The calls a sequence of requests ought to cause: one per admissible request, in order. */
  function ExpectedCalls(reqs: seq<Request>): seq<StoreCall> {
    if reqs == [] then []
    else (if Admissible(reqs[0]) then [CallFor(reqs[0])] else []) + ExpectedCalls(reqs[1..])
  }

  /** The positions in `reqs` of the requests that pass validation. */
  function AdmissibleAt(reqs: seq<Request>): set<nat> {
    set i: nat | i < |reqs| && Admissible(reqs[i])
  }

  /** The number of requests in `reqs` that pass validation. */
  function CountAdmissible(reqs: seq<Request>): nat {
    |AdmissibleAt(reqs)|
  }

  /** Every position moved one place to the right. */
  function Shift(s: set<nat>): set<nat> {
    set i: nat | i in s :: i + 1
  }

  /** Moving every position one place to the right keeps the number of positions. */
  lemma {:induction false} ShiftedSize(s: set<nat>)
    ensures |Shift(s)| == |s|
    decreases |s|
  {
    if s != {} {
      var x :| x in s;
      ShiftedSize(s - {x});
      assert Shift(s) == Shift(s - {x}) + {x + 1} by {
        forall j | j in Shift(s)
          ensures j in Shift(s - {x}) + {x + 1}
        {
          var i: nat :| i in s && j == i + 1;
          if i != x {
            assert i in s - {x};
          }
        }
      }
      assert x + 1 !in Shift(s - {x});
    }
  }

  /** Whatever the store answers, a session appends to its log exactly the calls of the admissible
      requests, each with that request's arguments, in the order the requests came. */
  lemma {:induction false} RunLogIsExpected(store: LibraryStore, log: seq<StoreCall>, reqs: seq<Request>)
    ensures Run(store, log, reqs).log == log + ExpectedCalls(reqs)
    decreases |reqs|
  {
    if reqs != [] {
      var out := Handle(store, log, reqs[0]);
      RunLogIsExpected(store, log + out.calls, reqs[1..]);
      AppendAssociative(log, out.calls, ExpectedCalls(reqs[1..]));
    }
  }

  /** Each admissible request makes exactly one store call and each refused request makes none. */
  lemma {:induction false} ExpectedCallsCount(reqs: seq<Request>)
    ensures |ExpectedCalls(reqs)| == CountAdmissible(reqs)
    decreases |reqs|
  {
    if reqs != [] {
      ExpectedCallsCount(reqs[1..]);
      AdmissibleAtStep(reqs);
      ShiftedSize(AdmissibleAt(reqs[1..]));
    }
  }

  /** The admissible positions of a non-empty sequence: possibly the first, then those of the
      rest moved one place to the right. */
  lemma AdmissibleAtStep(reqs: seq<Request>)
    requires reqs != []
    ensures 0 !in Shift(AdmissibleAt(reqs[1..]))
    ensures AdmissibleAt(reqs) == (if Admissible(reqs[0]) then {0} else {}) + Shift(AdmissibleAt(reqs[1..]))
  {
    var shifted := Shift(AdmissibleAt(reqs[1..]));
    forall i: nat | i < |reqs| && Admissible(reqs[i])
      ensures i in (if Admissible(reqs[0]) then {0} else {}) + shifted
    {
      if i > 0 {
        assert reqs[1..][i - 1] == reqs[i];
        assert i - 1 in AdmissibleAt(reqs[1..]);
      }
    }
  }

  /** Validation guards the store: no call it receives in a session has a blank title, a blank
      author or a zero id. */
  lemma {:induction false} ExpectedCallsWellFormed(reqs: seq<Request>)
    ensures forall i :: 0 <= i < |ExpectedCalls(reqs)| ==> WellFormed(ExpectedCalls(reqs)[i])
    decreases |reqs|
  {
    if reqs != [] {
      ExpectedCallsWellFormed(reqs[1..]);
      CallsAndRequestsCorrespond(reqs[0], CallFor(reqs[0]));
    }
  }

  /** The store's log after a session: the calls it had, one well-formed call per admissible
      request, and nothing else. */
  lemma SessionLog(store: LibraryStore, log: seq<StoreCall>, reqs: seq<Request>)
    ensures var t := Run(store, log, reqs);
      && |t.log| == |log| + CountAdmissible(reqs)
      && t.log[..|log|] == log
      && forall i :: |log| <= i < |t.log| ==> WellFormed(t.log[i])
  {
    RunLogIsExpected(store, log, reqs);
    ExpectedCallsCount(reqs);
    ExpectedCallsWellFormed(reqs);
    var t := Run(store, log, reqs);
    forall i | |log| <= i < |t.log|
      ensures WellFormed(t.log[i])
    {
      assert t.log[i] == ExpectedCalls(reqs)[i - |log|];
    }
  }

  /** The calls a session makes do not depend on what the store answers. */
  lemma LogIndependentOfStore(s1: LibraryStore, s2: LibraryStore, log: seq<StoreCall>, reqs: seq<Request>)
    ensures Run(s1, log, reqs).log == Run(s2, log, reqs).log
  {
    RunLogIsExpected(s1, log, reqs);
    RunLogIsExpected(s2, log, reqs);
  }

  /** Request by request, a session's result is a validation error exactly when that request is
      inadmissible. */
  lemma {:induction false} RunRefusesExactlyInadmissible(store: LibraryStore, log: seq<StoreCall>, reqs: seq<Request>)
    ensures var t := Run(store, log, reqs);
      forall i :: 0 <= i < |reqs| ==>
        ((t.results[i].Err? && t.results[i].error.Validation?) <==> !Admissible(reqs[i]))
    decreases |reqs|
  {
    if reqs != [] {
      var out := Handle(store, log, reqs[0]);
      RunRefusesExactlyInadmissible(store, log + out.calls, reqs[1..]);
      var t := Run(store, log, reqs);
      forall i | 1 <= i < |reqs|
        ensures t.results[i] == Run(store, log + out.calls, reqs[1..]).results[i - 1]
      {
      }
    }
  }

  /** The calls of the first `i` requests: those of the first request, then those of the next
      `i - 1`. */
  lemma PrefixCallsStep(reqs: seq<Request>, i: nat)
    requires 0 < i <= |reqs|
    ensures ExpectedCalls(reqs[..i])
      == (if Admissible(reqs[0]) then [CallFor(reqs[0])] else []) + ExpectedCalls(reqs[1..][..i - 1])
  {
    assert reqs[..i][0] == reqs[0];
    assert reqs[..i][1..] == reqs[1..][..i - 1];
  }

  lemma AppendAssociative(a: seq<StoreCall>, b: seq<StoreCall>, c: seq<StoreCall>)
    ensures a + b + c == a + (b + c)
  {
  }

  /** The i-th result of a session is what the service answers to the i-th request, served
      against a store that has received the calls of every earlier admitted request. */
  lemma {:induction false} RunResultIsHandle(store: LibraryStore, log: seq<StoreCall>, reqs: seq<Request>, i: nat)
    requires i < |reqs|
    ensures Run(store, log, reqs).results[i] == Handle(store, log + ExpectedCalls(reqs[..i]), reqs[i]).result
    decreases i
  {
    var out := Handle(store, log, reqs[0]);
    if i == 0 {
      assert reqs[..0] == [];
      assert log + [] == log;
    } else {
      var tail := reqs[1..];
      RunResultIsHandle(store, log + out.calls, tail, i - 1);
      assert tail[i - 1] == reqs[i];
      PrefixCallsStep(reqs, i);
      AppendAssociative(log, out.calls, ExpectedCalls(tail[..i - 1]));
    }
  }

  /** Each result of a session belongs to its own request: an error names the request's
      operation, and a response is of the request's kind. */
  lemma RunResultsBelongToRequests(store: LibraryStore, log: seq<StoreCall>, reqs: seq<Request>, i: nat)
    requires i < |reqs|
    ensures var res := Run(store, log, reqs).results[i];
      && (res.Err? ==> res.error.op == OpOf(reqs[i]))
      && (res.Ok? ==> Answers(reqs[i], res.value))
  {
    RunResultIsHandle(store, log, reqs, i);
  }
}
