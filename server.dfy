/**
 * The HTTP handler closure of main.go's startServer: reject anything but GET with 405,
 * then consult the rate limiter (429 when it refuses), and only then run FileHandler.
 */
module Server {
  import opened Base
  import opened Config
  import opened RateLimit
  import opened Store
  import opened Link

  /** A request to the daemon: its HTTP method, and the download FileHandler would see. */
  datatype HttpRequest = HttpRequest(verb: string, download: Download)

  datatype Reply =
    | MethodNotAllowed
    | TooManyRequests
    | Handled(status: Status)   // FileHandler answered
  {
    function Code(): int
    {
      match this
      case MethodNotAllowed => 405
      case TooManyRequests => 429
      case Handled(status) => status.Code()
    }
  }

  /** Everything a request can change: the rate counter and the store's tables. */
  datatype State = State(requests: int, tables: Tables)

  datatype Step = Step(reply: Reply, state: State)

  function Gate(cfg: Settings, s: State, req: HttpRequest): Step
  {
    if req.verb != "GET" then Step(MethodNotAllowed, s)
    else
      var a := Acquire(s.requests, cfg.rateLimit);
      if !a.admitted then Step(TooManyRequests, s)
      else
        var d := req.download;
        var r := Handle(s.tables, d.ip, Token(d.urlPath), d.now, d.fs, cfg.failedAttemptLimit);
        Step(Handled(r.status), State(a.requests, r.tables))
  }

  /** A request that is not a GET gets 405 and changes neither the counter nor the tables. */
  lemma NonGetRejected(cfg: Settings, s: State, req: HttpRequest)
    requires req.verb != "GET"
    ensures Gate(cfg, s, req) == Step(MethodNotAllowed, s)
  {
  }

  /** A GET over the rate limit gets 429 and never reaches FileHandler: nothing changes. */
  lemma RateLimitedUntouched(cfg: Settings, s: State, req: HttpRequest)
    requires req.verb == "GET" && s.requests >= cfg.rateLimit
    ensures Gate(cfg, s, req) == Step(TooManyRequests, s)
  {
  }

  /** A request reaches FileHandler exactly when it is a GET and the counter is below the limit. */
  lemma HandledIff(cfg: Settings, s: State, req: HttpRequest)
    ensures Gate(cfg, s, req).reply.Handled? <==> req.verb == "GET" && s.requests < cfg.rateLimit
    ensures Gate(cfg, s, req).reply.Handled? ==> Gate(cfg, s, req).state.requests == s.requests + 1
    ensures !Gate(cfg, s, req).reply.Handled? ==> Gate(cfg, s, req).state == s
  {
  }

  /** The replies to a sequence of requests within one window, and the state they leave. */
  datatype Session = Session(replies: seq<Reply>, state: State)

  function ServeAll(cfg: Settings, s: State, reqs: seq<HttpRequest>): Session
    decreases |reqs|
  {
    if reqs == [] then Session([], s)
    else
      var first := Gate(cfg, s, reqs[0]);
      var rest := ServeAll(cfg, first.state, reqs[1..]);
      Session([first.reply] + rest.replies, rest.state)
  }

  function CountHandled(rs: seq<Reply>): nat
  {
    if rs == [] then 0 else (if rs[0].Handled? then 1 else 0) + CountHandled(rs[1..])
  }

  /** Within one window at most RateLimit - requests requests reach FileHandler. */
  lemma {:induction false} HandledWithinWindow(cfg: Settings, s: State, reqs: seq<HttpRequest>)
    ensures CountHandled(ServeAll(cfg, s, reqs).replies) <= Max(cfg.rateLimit - s.requests, 0)
    decreases |reqs|
  {
    if reqs != [] {
      var first := Gate(cfg, s, reqs[0]);
      var session := ServeAll(cfg, s, reqs);
      var rest := ServeAll(cfg, first.state, reqs[1..]);
      HandledIff(cfg, s, reqs[0]);
      HandledWithinWindow(cfg, first.state, reqs[1..]);
      assert session.replies[1..] == rest.replies;
    }
  }

  /** The daemon's state: the rate limiter and the store behind one handler. */
  class Daemon {
    const cfg: Settings
    const limiter: RateLimiter
    const store: LinkStore

    ghost predicate Valid()
      reads this, limiter, store
    {
      limiter.limit == cfg.rateLimit && limiter.Valid()
    }

    constructor (cfg: Settings)
      ensures Valid() && this.cfg == cfg
      ensures limiter.requests == 0 && store.entries == map[] && store.attempts == map[]
    {
      this.cfg := cfg;
      limiter := new RateLimiter(cfg.rateLimit);
      store := new LinkStore();
    }

    function CurrentState(): State
      reads this, limiter, store
    {
      State(limiter.requests, Tables(store.entries, store.attempts))
    }

    /** The handler closure: method check, rate limit, then FileHandler. */
    method ServeHTTP(req: HttpRequest) returns (reply: Reply)
      requires Valid()
      modifies limiter, store
      ensures Valid()
      ensures Step(reply, CurrentState()) == Gate(cfg, old(CurrentState()), req)
    {
      if req.verb != "GET" {
        return MethodNotAllowed;
      }
      var admitted := limiter.TryAcquire();
      if !admitted {
        return TooManyRequests;
      }
      var d := req.download;
      var status := FileHandler(store, d.ip, d.urlPath, d.now, d.fs, cfg.failedAttemptLimit);
      return Handled(status);
    }

    /** The end of a rate-limit window. */
    method ResetWindow()
      requires Valid()
      modifies limiter
      ensures Valid()
      ensures CurrentState() == State(0, old(CurrentState()).tables)
    {
      limiter.Reset();
    }
  }
}
