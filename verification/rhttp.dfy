/** A model of the resilient HTTP client `rhttp::Client`.

The client holds a retry budget and an optional rate limiter. `send` loops:
wait for a limiter tick (when a limiter is configured), clone the request,
dispatch it; a success is returned at once, a failure is retried after a
backoff of `2^attempts` seconds while the budget lasts, and otherwise returned.

The transport is abstracted into the sequence of outcomes it would give to
successive dispatches, and every side effect of `send` (limiter tick, dispatch,
backoff sleep) is recorded as an event of a trace.
 */
module RHttp {

  /** Rust's `u32`, the type of `max_retries` and of the attempt counter. */
  type U32 = x: int | 0 <= x < 0x1_0000_0000

  /** 2^64: arithmetic on `u64` wraps modulo this value (in a release build). */
  const U64_MODULUS: int := 0x1_0000_0000_0000_0000

  datatype Option<T> = None | Some(value: T)

  /** The limiter installed by `with_max_requests_per_second`. Only the requested
      rate is kept; the tick period `1 / perSecond` and its timing are not modelled. */
  datatype RateLimiter = RateLimiter(perSecond: real)

  /** The policy state of a client: the retry budget and the optional limiter. */
  datatype Client = Client(maxRetries: U32, rateLimiter: Option<RateLimiter>)

  /** What the transport answers to one dispatch. */
  datatype Outcome<R, E> = Ok(response: R) | Err(error: E)

  /** What `send` ends with: a response, the last transport error, or the panic
      of `expect` when the request cannot be cloned. */
  datatype SendResult<R, E> = Response(response: R) | TransportError(error: E) | ClonePanic

  /** An observable step of `send`. */
  datatype Event = Tick | Dispatch | Sleep(seconds: nat)

  /** The result of one `send` together with the events it caused, in order. */
  datatype Run<R, E> = Run(result: SendResult<R, E>, trace: seq<Event>)

  // ---------------------------------------------------------------------------
  // Construction

  /** `Client::new`: no retries and no limiter. */
  function New(): (c: Client)
    ensures c.maxRetries == 0
    ensures c.rateLimiter == None
  {
    Client(0, None)
  }

  /** `with_max_requests_per_second`: a positive limit installs (or replaces) the
      limiter; any other limit leaves the client as it was. */
  function WithMaxRequestsPerSecond(c: Client, limit: real): (r: Client)
    ensures limit > 0.0 ==> r.rateLimiter == Some(RateLimiter(limit))
    ensures limit <= 0.0 ==> r == c
    ensures r.maxRetries == c.maxRetries
  {
    if limit > 0.0 then c.(rateLimiter := Some(RateLimiter(limit))) else c
  }

  /** `with_max_retries`: overwrites the retry budget, keeps the limiter. */
  function WithMaxRetries(c: Client, maxRetries: U32): (r: Client)
    ensures r.maxRetries == maxRetries
    ensures r.rateLimiter == c.rateLimiter
  {
    c.(maxRetries := maxRetries)
  }

  // ---------------------------------------------------------------------------
  // Backoff

  function Pow2(n: nat): (p: nat)
    ensures p >= 1
  {
    if n == 0 then 1 else 2 * Pow2(n - 1)
  }

  /** The sleep, in seconds, before the retry numbered `attempt`:
      `2u64.pow(attempt)`, which wraps modulo 2^64. */
  function Backoff(attempt: nat): (seconds: nat)
    ensures seconds < U64_MODULUS
  {
    Pow2(attempt) % U64_MODULUS
  }

  lemma {:induction false} Pow2Add(a: nat, b: nat)
    ensures Pow2(a + b) == Pow2(a) * Pow2(b)
    decreases a
  {
    if a > 0 {
      Pow2Add(a - 1, b);
    }
  }

  lemma Pow2Of64()
    ensures Pow2(64) == U64_MODULUS
  {
    assert Pow2(8) == 0x100;
    Pow2Add(8, 8);
    assert Pow2(16) == 0x1_0000;
    Pow2Add(16, 16);
    assert Pow2(32) == 0x1_0000_0000;
    Pow2Add(32, 32);
  }

  lemma {:induction false} Pow2Increasing(i: nat, j: nat)
    requires i < j
    ensures Pow2(i) < Pow2(j)
    decreases j
  {
    if i < j - 1 {
      Pow2Increasing(i, j - 1);
    }
  }

  /** Below 64 the backoff is exactly `2^attempt` seconds. */
  lemma BackoffExact(attempt: nat)
    requires attempt < 64
    ensures Backoff(attempt) == Pow2(attempt)
  {
    Pow2Of64();
    Pow2Increasing(attempt, 64);
  }

  /** Retry `j` waits twice as long as retry `j - 1`: 2, 4, 8, ... */
  lemma BackoffDoubles(j: nat)
    requires 1 <= j < 64
    ensures Backoff(j) == 2 * Backoff(j - 1)
    ensures Backoff(1) == 2
  {
    BackoffExact(j);
    BackoffExact(j - 1);
    BackoffExact(1);
  }

  /** Below 64 the delays strictly increase with the retry number. */
  lemma BackoffStrictlyIncreasing(i: nat, j: nat)
    requires i < j < 64
    ensures Backoff(i) < Backoff(j)
  {
    BackoffExact(i);
    BackoffExact(j);
    Pow2Increasing(i, j);
  }

  /** From retry 64 on, `2u64.pow(attempts)` has wrapped: the sleep is 0 seconds. */
  lemma BackoffWrapsFrom64(attempt: nat)
    requires attempt >= 64
    ensures Backoff(attempt) == 0
  {
    Pow2Of64();
    Pow2Add(64, attempt - 64);
  }

  // ---------------------------------------------------------------------------
  // The send state machine

  /** The events before the clone in every iteration: one tick when a limiter is configured. */
  function Pacing(c: Client): seq<Event>
  {
    if c.rateLimiter.Some? then [Tick] else []
  }

  /** `send` from the point where the attempt counter holds `attempts`;
      `outcomes[i]` is what the transport answers to dispatch number `i`
      (counting from 0), so at least `maxRetries + 1` answers are needed. */
  function Attempt<R, E>(c: Client, cloneable: bool, outcomes: seq<Outcome<R, E>>, attempts: nat): Run<R, E>
    requires attempts <= c.maxRetries < |outcomes|
    decreases c.maxRetries - attempts
  {
    if !cloneable then
      Run(ClonePanic, Pacing(c))
    else
      match outcomes[attempts]
      case Ok(resp) => Run(Response(resp), Pacing(c) + [Dispatch])
      case Err(e) =>
        if attempts < c.maxRetries then
          var next := Attempt(c, cloneable, outcomes, attempts + 1);
          Run(next.result, Pacing(c) + [Dispatch, Sleep(Backoff(attempts + 1))] + next.trace)
        else
          Run(TransportError(e), Pacing(c) + [Dispatch])
  }

  /** `Client::send` with the loop as written: an attempt counter starting at 0,
      the limiter tick, the clone, the dispatch, then return or back off. */
  method Send<R, E>(c: Client, cloneable: bool, outcomes: seq<Outcome<R, E>>)
    returns (result: SendResult<R, E>, trace: seq<Event>)
    requires c.maxRetries < |outcomes|
    ensures Run(result, trace) == Attempt(c, cloneable, outcomes, 0)
  {
    var attempts: U32 := 0;
    trace := [];
    ghost var goal := Attempt(c, cloneable, outcomes, 0);
    while true
      invariant attempts <= c.maxRetries
      invariant goal == Run(Attempt(c, cloneable, outcomes, attempts).result,
                            trace + Attempt(c, cloneable, outcomes, attempts).trace)
      decreases c.maxRetries - attempts
    {
      ghost var here := Attempt(c, cloneable, outcomes, attempts);
      ghost var before := trace;
      if c.rateLimiter.Some? {
        trace := trace + [Tick];
      }
      assert trace == before + Pacing(c);
      if !cloneable {
        assert here == Run(ClonePanic, Pacing(c));
        return ClonePanic, trace;
      }
      trace := trace + [Dispatch];
      Associative(before, Pacing(c), [Dispatch]);
      match outcomes[attempts] {
        case Ok(resp) =>
          assert here == Run(Response(resp), Pacing(c) + [Dispatch]);
          return Response(resp), trace;
        case Err(e) =>
          if attempts < c.maxRetries {
            attempts := attempts + 1;
            trace := trace + [Sleep(Backoff(attempts))];
            ghost var next := Attempt(c, cloneable, outcomes, attempts);
            ghost var step := Pacing(c) + [Dispatch, Sleep(Backoff(attempts))];
            assert here == Run(next.result, step + next.trace);
            assert trace == before + step;
            Associative(before, step, next.trace);
          } else {
            assert here == Run(TransportError(e), Pacing(c) + [Dispatch]);
            return TransportError(e), trace;
          }
      }
    }
  }

  // ---------------------------------------------------------------------------
  // Reading a trace

  /** How many times `e` occurs in `t`. */
  function Count(t: seq<Event>, e: Event): (n: nat)
    ensures n <= |t|
  {
    if t == [] then 0 else (if t[0] == e then 1 else 0) + Count(t[1..], e)
  }

  /** The durations of the sleeps of `t`, in order. */
  function Sleeps(t: seq<Event>): (s: seq<nat>)
  {
    if t == [] then []
    else (if t[0].Sleep? then [t[0].seconds] else []) + Sleeps(t[1..])
  }

  /** The backoffs `Backoff(from), Backoff(from + 1), ...`, `n` of them. */
  function Schedule(from: nat, n: nat): (s: seq<nat>)
    ensures |s| == n
    ensures forall j :: 0 <= j < n ==> s[j] == Backoff(from + j)
    decreases n
  {
    if n == 0 then [] else [Backoff(from)] + Schedule(from + 1, n - 1)
  }

  /** One round's tick and dispatch, seen through `Count` and `Sleeps`. */
  lemma RoundEvents(c: Client, tail: seq<Event>)
    ensures Count(Pacing(c) + [Dispatch] + tail, Dispatch) == 1 + Count(tail, Dispatch)
    ensures Count(Pacing(c) + [Dispatch] + tail, Tick) == (if c.rateLimiter.Some? then 1 else 0) + Count(tail, Tick)
    ensures Sleeps(Pacing(c) + [Dispatch] + tail) == Sleeps(tail)
  {
    var t := Pacing(c) + [Dispatch] + tail;
    if c.rateLimiter.Some? {
      assert t[1..] == [Dispatch] + tail;
      assert ([Dispatch] + tail)[1..] == tail;
    } else {
      assert t[1..] == tail;
    }
  }

  /** One backoff sleep, seen through `Count` and `Sleeps`. */
  lemma SleepEvents(seconds: nat, tail: seq<Event>)
    ensures Count([Sleep(seconds)] + tail, Dispatch) == Count(tail, Dispatch)
    ensures Count([Sleep(seconds)] + tail, Tick) == Count(tail, Tick)
    ensures Sleeps([Sleep(seconds)] + tail) == [seconds] + Sleeps(tail)
  {
    assert ([Sleep(seconds)] + tail)[1..] == tail;
  }

  /** What a settled dispatch makes `send` return. */
  function Settle<R, E>(o: Outcome<R, E>): SendResult<R, E>
  {
    match o
    case Ok(resp) => Response(resp)
    case Err(e) => TransportError(e)
  }

  /** One failed, retried dispatch of a cloneable `send`, unfolded. */
  lemma AttemptRetries<R, E>(c: Client, outcomes: seq<Outcome<R, E>>, a: nat)
    requires a < c.maxRetries < |outcomes|
    requires outcomes[a].Err?
    ensures Attempt(c, true, outcomes, a)
         == Run(Attempt(c, true, outcomes, a + 1).result,
                Pacing(c) + [Dispatch] + ([Sleep(Backoff(a + 1))] + Attempt(c, true, outcomes, a + 1).trace))
    ensures Attempt(c, true, outcomes, a).trace
         == Pacing(c) + [Dispatch] + [Sleep(Backoff(a + 1))] + Attempt(c, true, outcomes, a + 1).trace
  {
    var next := Attempt(c, true, outcomes, a + 1);
    assert Pacing(c) + [Dispatch, Sleep(Backoff(a + 1))] + next.trace
        == Pacing(c) + [Dispatch] + ([Sleep(Backoff(a + 1))] + next.trace);
    assert Pacing(c) + [Dispatch, Sleep(Backoff(a + 1))] + next.trace
        == Pacing(c) + [Dispatch] + [Sleep(Backoff(a + 1))] + next.trace;
  }

  lemma Associative(a: seq<Event>, b: seq<Event>, c: seq<Event>)
    ensures a + b + c == a + (b + c)
  {
  }

  /** The events of a failed, retried dispatch: one dispatch, a tick when
      paced, and the sleep `Backoff(a + 1)`, before those of the next attempt. */
  lemma AttemptRetryEvents<R, E>(c: Client, outcomes: seq<Outcome<R, E>>, a: nat)
    requires a < c.maxRetries < |outcomes|
    requires outcomes[a].Err?
    ensures Count(Attempt(c, true, outcomes, a).trace, Dispatch) == 1 + Count(Attempt(c, true, outcomes, a + 1).trace, Dispatch)
    ensures Count(Attempt(c, true, outcomes, a).trace, Tick)
         == (if c.rateLimiter.Some? then 1 else 0) + Count(Attempt(c, true, outcomes, a + 1).trace, Tick)
    ensures Sleeps(Attempt(c, true, outcomes, a).trace) == [Backoff(a + 1)] + Sleeps(Attempt(c, true, outcomes, a + 1).trace)
  {
    var next := Attempt(c, true, outcomes, a + 1).trace;
    AttemptRetries(c, outcomes, a);
    RoundEvents(c, [Sleep(Backoff(a + 1))] + next);
    SleepEvents(Backoff(a + 1), next);
  }

  /** The events of the dispatch that settles `send`: one dispatch, a tick
      when paced, no sleep; `send` returns what that dispatch gave. */
  lemma AttemptFinalEvents<R, E>(c: Client, outcomes: seq<Outcome<R, E>>, a: nat)
    requires a <= c.maxRetries < |outcomes|
    requires a == c.maxRetries || outcomes[a].Ok?
    ensures Attempt(c, true, outcomes, a).result == Settle(outcomes[a])
    ensures Count(Attempt(c, true, outcomes, a).trace, Dispatch) == 1
    ensures Count(Attempt(c, true, outcomes, a).trace, Tick) == if c.rateLimiter.Some? then 1 else 0
    ensures Sleeps(Attempt(c, true, outcomes, a).trace) == []
  {
    assert Attempt(c, true, outcomes, a).trace == Pacing(c) + [Dispatch] + [];
    RoundEvents(c, []);
  }

  /** If dispatches `a .. last - 1` of a cloneable `send` fail and dispatch
      `last` settles it (it succeeds, or the budget is spent there), `send`
      returns what dispatch `last` gave, after `last - a + 1` dispatches, with
      one tick per dispatch when a limiter is configured and none otherwise,
      and with the sleeps `Backoff(a + 1), ..., Backoff(last)`: one after every
      failed dispatch but the last. */
  lemma {:induction false} AttemptSettles<R, E>(c: Client, outcomes: seq<Outcome<R, E>>, a: nat, last: nat)
    requires a <= last <= c.maxRetries < |outcomes|
    requires forall i :: a <= i < last ==> outcomes[i].Err?
    requires last == c.maxRetries || outcomes[last].Ok?
    ensures Attempt(c, true, outcomes, a).result == Settle(outcomes[last])
    ensures Count(Attempt(c, true, outcomes, a).trace, Dispatch) == last - a + 1
    ensures Count(Attempt(c, true, outcomes, a).trace, Tick) == if c.rateLimiter.Some? then last - a + 1 else 0
    ensures Sleeps(Attempt(c, true, outcomes, a).trace) == Schedule(a + 1, last - a)
    decreases last - a
  {
    if a == last {
      AttemptFinalEvents(c, outcomes, a);
    } else {
      AttemptRetries(c, outcomes, a);
      AttemptRetryEvents(c, outcomes, a);
      AttemptSettles(c, outcomes, a + 1, last);
    }
  }

  /** A cloneable `send` always ends on a dispatch: no sleep follows the final one. */
  lemma {:induction false} AttemptEndsOnDispatch<R, E>(c: Client, outcomes: seq<Outcome<R, E>>, a: nat)
    requires a <= c.maxRetries < |outcomes|
    ensures |Attempt(c, true, outcomes, a).trace| > 0
    ensures Attempt(c, true, outcomes, a).trace[|Attempt(c, true, outcomes, a).trace| - 1] == Dispatch
    decreases c.maxRetries - a
  {
    if outcomes[a].Err? && a < c.maxRetries {
      var next := Attempt(c, true, outcomes, a + 1);
      AttemptRetries(c, outcomes, a);
      AttemptEndsOnDispatch(c, outcomes, a + 1);
      LastOfConcat(Pacing(c) + [Dispatch] + [Sleep(Backoff(a + 1))], next.trace);
      assert Pacing(c) + [Dispatch] + ([Sleep(Backoff(a + 1))] + next.trace)
          == Pacing(c) + [Dispatch] + [Sleep(Backoff(a + 1))] + next.trace;
    }
  }

  lemma LastOfConcat(a: seq<Event>, b: seq<Event>)
    requires |b| > 0
    ensures (a + b)[|a + b| - 1] == b[|b| - 1]
  {
  }

  /** Retry exhaustion: when every dispatch fails, `send` dispatches exactly
      `maxRetries + 1` times, sleeps `2^1, ..., 2^maxRetries` seconds in between,
      ends on a dispatch and returns the error of the last one. */
  lemma SendExhaustsRetries<R, E>(c: Client, outcomes: seq<Outcome<R, E>>)
    requires c.maxRetries < |outcomes|
    requires forall i :: 0 <= i <= c.maxRetries ==> outcomes[i].Err?
    ensures Attempt(c, true, outcomes, 0).result == TransportError(outcomes[c.maxRetries].error)
    ensures Count(Attempt(c, true, outcomes, 0).trace, Dispatch) == c.maxRetries + 1
    ensures Sleeps(Attempt(c, true, outcomes, 0).trace) == Schedule(1, c.maxRetries)
    ensures Attempt(c, true, outcomes, 0).trace[|Attempt(c, true, outcomes, 0).trace| - 1] == Dispatch
  {
    AttemptSettles(c, outcomes, 0, c.maxRetries);
    AttemptEndsOnDispatch(c, outcomes, 0);
  }

  /** Retry success: when the first `m` dispatches fail and dispatch `m` (counting
      from 0) succeeds, with `m <= maxRetries`, `send` returns that response after
      exactly `m + 1` dispatches and the `m` sleeps `2^1, ..., 2^m`. */
  lemma SendRecovers<R, E>(c: Client, outcomes: seq<Outcome<R, E>>, m: nat)
    requires m <= c.maxRetries < |outcomes|
    requires forall i :: 0 <= i < m ==> outcomes[i].Err?
    requires outcomes[m].Ok?
    ensures Attempt(c, true, outcomes, 0).result == Response(outcomes[m].response)
    ensures Count(Attempt(c, true, outcomes, 0).trace, Dispatch) == m + 1
    ensures Sleeps(Attempt(c, true, outcomes, 0).trace) == Schedule(1, m)
  {
    AttemptSettles(c, outcomes, 0, m);
  }

  /** A cloneable `send` from attempt `a` succeeds exactly when one of the
      dispatches `a .. maxRetries` succeeds; otherwise it returns a transport error. */
  lemma {:induction false} AttemptSucceedsIff<R, E>(c: Client, outcomes: seq<Outcome<R, E>>, a: nat)
    requires a <= c.maxRetries < |outcomes|
    ensures Attempt(c, true, outcomes, a).result.Response?
        <==> exists i :: a <= i <= c.maxRetries && outcomes[i].Ok?
    ensures Attempt(c, true, outcomes, a).result.TransportError?
        <==> forall i :: a <= i <= c.maxRetries ==> outcomes[i].Err?
    decreases c.maxRetries - a
  {
    if outcomes[a].Err? && a < c.maxRetries {
      AttemptSucceedsIff(c, outcomes, a + 1);
      if exists i :: a <= i <= c.maxRetries && outcomes[i].Ok? {
        var i :| a <= i <= c.maxRetries && outcomes[i].Ok?;
        assert a + 1 <= i;
      }
    }
  }

  /** `send` returns a response iff one of its `maxRetries + 1` dispatches succeeds. */
  lemma SendSucceedsIff<R, E>(c: Client, outcomes: seq<Outcome<R, E>>)
    requires c.maxRetries < |outcomes|
    ensures Attempt(c, true, outcomes, 0).result.Response?
        <==> exists i :: 0 <= i <= c.maxRetries && outcomes[i].Ok?
    ensures Attempt(c, true, outcomes, 0).result.TransportError?
        <==> forall i :: 0 <= i <= c.maxRetries ==> outcomes[i].Err?
  {
    AttemptSucceedsIff(c, outcomes, 0);
  }

  /** Every dispatch of `t` comes straight after a tick. */
  ghost predicate TickBeforeEachDispatch(t: seq<Event>)
  {
    forall i :: 0 <= i < |t| && t[i] == Dispatch ==> 0 < i && t[i - 1] == Tick
  }

  /** Every tick of `t` that is not its last event is followed straight by a dispatch. */
  ghost predicate DispatchAfterEachTick(t: seq<Event>)
  {
    forall i :: 0 <= i < |t| - 1 && t[i] == Tick ==> t[i + 1] == Dispatch
  }

  /** With a limiter, exactly one tick precedes every dispatch, retries included:
      each dispatch comes straight after a tick and each tick straight before a
      dispatch. Without a limiter no tick happens at all. */
  lemma {:induction false} AttemptPacing<R, E>(c: Client, cloneable: bool, outcomes: seq<Outcome<R, E>>, a: nat)
    requires a <= c.maxRetries < |outcomes|
    ensures c.rateLimiter.Some? ==> TickBeforeEachDispatch(Attempt(c, cloneable, outcomes, a).trace)
    ensures c.rateLimiter.Some? ==> DispatchAfterEachTick(Attempt(c, cloneable, outcomes, a).trace)
    ensures c.rateLimiter.Some? ==> Attempt(c, cloneable, outcomes, a).trace[0] == Tick
    ensures c.rateLimiter.None? ==> Tick !in Attempt(c, cloneable, outcomes, a).trace
    decreases c.maxRetries - a
  {
    var t := Attempt(c, cloneable, outcomes, a).trace;
    if cloneable && outcomes[a].Err? && a < c.maxRetries {
      var next := Attempt(c, cloneable, outcomes, a + 1).trace;
      AttemptPacing(c, cloneable, outcomes, a + 1);
      var step := Pacing(c) + [Dispatch, Sleep(Backoff(a + 1))];
      assert t == step + next;
      assert forall i :: |step| <= i < |t| ==> t[i] == next[i - |step|];
      if c.rateLimiter.Some? {
        assert step == [Tick, Dispatch, Sleep(Backoff(a + 1))];
        assert t[0] == Tick && t[1] == Dispatch && t[2].Sleep?;
        forall i | 0 <= i < |t| && t[i] == Dispatch
          ensures 0 < i && t[i - 1] == Tick
        {
          if i >= 3 {
            assert next[i - 3] == Dispatch;
          }
        }
        forall i | 0 <= i < |t| - 1 && t[i] == Tick
          ensures t[i + 1] == Dispatch
        {
          if i >= 3 {
            assert next[i - 3] == Tick;
          }
        }
      } else {
        assert step == [Dispatch, Sleep(Backoff(a + 1))];
      }
    }
  }

  /** A request that cannot be cloned panics before any dispatch or sleep; only
      the limiter tick that precedes the clone has happened. */
  lemma ClonePanicDispatchesNothing<R, E>(c: Client, outcomes: seq<Outcome<R, E>>)
    requires c.maxRetries < |outcomes|
    ensures Attempt(c, false, outcomes, 0).result == ClonePanic
    ensures Dispatch !in Attempt(c, false, outcomes, 0).trace
    ensures Sleeps(Attempt(c, false, outcomes, 0).trace) == []
  {
  }

  /** A fresh client makes exactly one dispatch, with no tick and no sleep, and
      returns what that dispatch gave. */
  lemma NewClientDispatchesOnce<R, E>(outcomes: seq<Outcome<R, E>>)
    requires 0 < |outcomes|
    ensures Attempt(New(), true, outcomes, 0) == Run(Settle(outcomes[0]), [Dispatch])
  {
  }
}
