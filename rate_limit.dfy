/**
 * The process-wide rate limiter of main.go: one counter, `requests`, admitted against the
 * configured RateLimit and zeroed at the end of every window. The window timer is not
 * modelled; a reset is an explicit call (WindowElapsed in a replayed history).
 */
module RateLimit {
  import opened Base

  /** The outcome of one rateLimit call: whether it admitted, and the counter it leaves. */
  datatype Admission = Admission(admitted: bool, requests: int)

  function Acquire(requests: int, limit: int): Admission
  {
    if requests >= limit then Admission(false, requests) else Admission(true, requests + 1)
  }

  datatype Event = Request | WindowElapsed

  /** The answers given to the Request events of a history, and the counter at its end. */
  datatype Trace = Trace(admitted: seq<bool>, requests: int)

  function Replay(requests: int, limit: int, events: seq<Event>): Trace
    decreases |events|
  {
    if events == [] then Trace([], requests)
    else match events[0]
      case WindowElapsed => Replay(0, limit, events[1..])
      case Request =>
        var a := Acquire(requests, limit);
        var rest := Replay(a.requests, limit, events[1..]);
        Trace([a.admitted] + rest.admitted, rest.requests)
  }

  function CountTrue(bs: seq<bool>): nat
  {
    if bs == [] then 0 else (if bs[0] then 1 else 0) + CountTrue(bs[1..])
  }

  /** From a counter in range, no history of requests and resets pushes it above RateLimit. */
  lemma {:induction false} ReplayStaysBounded(requests: int, limit: int, events: seq<Event>)
    requires 0 <= requests <= Max(limit, 0)
    ensures 0 <= Replay(requests, limit, events).requests <= Max(limit, 0)
    decreases |events|
  {
    if events != [] {
      match events[0]
      case WindowElapsed => ReplayStaysBounded(0, limit, events[1..]);
      case Request => ReplayStaysBounded(Acquire(requests, limit).requests, limit, events[1..]);
    }
  }

  /**
   * Within one window (no reset) exactly min(n, RateLimit - requests) of n calls are admitted;
   * right after a reset that is at most RateLimit.
   */
  lemma {:induction false} WindowAdmissions(requests: int, limit: int, events: seq<Event>)
    requires forall i :: 0 <= i < |events| ==> events[i] == Request
    ensures CountTrue(Replay(requests, limit, events).admitted) == Min(|events|, Max(limit - requests, 0))
    decreases |events|
  {
    if events != [] {
      var a := Acquire(requests, limit);
      WindowAdmissions(a.requests, limit, events[1..]);
      var t := Replay(requests, limit, events);
      assert t.admitted == [a.admitted] + Replay(a.requests, limit, events[1..]).admitted;
      assert t.admitted[1..] == Replay(a.requests, limit, events[1..]).admitted;
    }
  }

  /** Limit 2: two requests pass, the third in the same window is refused, the first after a reset passes. */
  lemma RateWindowExample()
    ensures Replay(0, 2, [Request, Request, Request, WindowElapsed, Request]).admitted
         == [true, true, false, true]
  {
  }

  class RateLimiter {
    var requests: int
    const limit: int

    /** The counter never leaves [0, RateLimit] (or stays 0 when RateLimit is not positive). */
    ghost predicate Valid()
      reads this
    {
      0 <= requests <= Max(limit, 0)
    }

    constructor (limit: int)
      ensures Valid() && this.limit == limit && requests == 0
    {
      this.limit := limit;
      requests := 0;
    }

    /** rateLimit: admit while the counter is below RateLimit, counting the admission. */
    method TryAcquire() returns (admitted: bool)
      modifies this
      ensures admitted <==> old(requests) < limit
      ensures requests == if admitted then old(requests) + 1 else old(requests)
      ensures old(Valid()) ==> Valid()
    {
      if requests >= limit {
        return false;
      }
      requests := requests + 1;
      return true;
    }

    /** One iteration of resetRateLimit's loop. */
    method Reset()
      modifies this
      ensures requests == 0 && Valid()
    {
      requests := 0;
    }
  }
}
