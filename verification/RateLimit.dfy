/** The per-connection token bucket of the control server (apps/server/src/server.ts, lines 434-457). */
module RateLimit {
  import opened Reasons

  datatype Limit = Limit(capacity: real, refillPerSecond: real)

  datatype Bucket = Bucket(tokens: real, lastRefillMs: int)

  predicate Sensible(limit: Limit) { limit.capacity >= 1.0 && limit.refillPerSecond > 0.0 }

  /** What `ms` milliseconds add. */
  function Gain(limit: Limit, ms: int): real { ms as real / 1000.0 * limit.refillPerSecond }

  function Level(limit: Limit, b: Bucket, now: int): real {
    var filled := b.tokens + Gain(limit, now - b.lastRefillMs);
    if filled < limit.capacity then filled else limit.capacity
  }

  /** The wait told to a refused caller whose bucket holds `tokens`, if the bucket refills at all. */
  function RetryAfter(limit: Limit, tokens: real): int
    requires limit.refillPerSecond != 0.0
  {
    var wait := Ceiling((1.0 - tokens) / limit.refillPerSecond * 1000.0);
    if wait > 1 then wait else 1
  }

  /** Dividing by a rate of zero announces an infinite wait. */
  datatype Wait = Millis(ms: int) | Forever

  function Announced(limit: Limit, tokens: real): Wait {
    if limit.refillPerSecond == 0.0 then Forever else Millis(RetryAfter(limit, tokens))
  }

  function Ceiling(x: real): (n: int)
    ensures n as real - 1.0 < x <= n as real
  {
    if x.Floor as real == x then x.Floor else x.Floor + 1
  }

  predicate Admits(limit: Limit, b: Bucket, now: int) { Level(limit, b, now) >= 1.0 }

  function After(limit: Limit, b: Bucket, now: int): Bucket {
    Bucket(Level(limit, b, now) - (if Admits(limit, b, now) then 1.0 else 0.0), now)
  }

  /** `consumeToken`, on the fields of one connection's bucket. */
  class TokenBucket {
    var tokens: real
    var lastRefillMs: int
    const limit: Limit

    function View(): Bucket
      reads this
    {
      Bucket(tokens, lastRefillMs)
    }

    constructor (limit: Limit, now: int)
      ensures View() == Bucket(limit.capacity, now) && this.limit == limit
    {
      this.limit, tokens, lastRefillMs := limit, limit.capacity, now;
    }

    method ConsumeToken(now: int) returns (retryAfter: Option<Wait>)
      modifies this
      ensures View() == After(limit, old(View()), now)
      ensures retryAfter == if Admits(limit, old(View()), now) then None else Some(Announced(limit, tokens))
    {
      var elapsedSeconds := (now - lastRefillMs) as real / 1000.0;
      var filled := tokens + elapsedSeconds * limit.refillPerSecond;
      tokens := if filled < limit.capacity then filled else limit.capacity;
      lastRefillMs := now;
      if tokens >= 1.0 {
        tokens := tokens - 1.0;
        return None;
      }
      return Some(Announced(limit, tokens));
    }
  }

  // ---------------------------------------------------------------- over all runs

  /** Call times that never go back, starting no earlier than the last refill. */
  predicate Forward(b: Bucket, times: seq<int>) {
    times == [] || (b.lastRefillMs <= times[0] && forall i | 0 < i < |times| :: times[i - 1] <= times[i])
  }

  function AfterAll(limit: Limit, b: Bucket, times: seq<int>): Bucket
    decreases |times|
  {
    if times == [] then b else AfterAll(limit, After(limit, b, times[0]), times[1..])
  }

  function Admitted(limit: Limit, b: Bucket, times: seq<int>): nat
    decreases |times|
  {
    if times == [] then 0
    else (if Admits(limit, b, times[0]) then 1 else 0) + Admitted(limit, After(limit, b, times[0]), times[1..])
  }

  /** One more call at the end of a run. */
  lemma {:induction false} OneMore(limit: Limit, b: Bucket, times: seq<int>, now: int)
    ensures AfterAll(limit, b, times + [now]) == After(limit, AfterAll(limit, b, times), now)
    ensures Admitted(limit, b, times + [now])
            == Admitted(limit, b, times) + if Admits(limit, AfterAll(limit, b, times), now) then 1 else 0
    decreases |times|
  {
    if times == [] {
      assert [now][1..] == [] && times + [now] == [now];
    } else {
      assert (times + [now])[1..] == times[1..] + [now];
      OneMore(limit, After(limit, b, times[0]), times[1..], now);
    }
  }

  lemma {:induction false} AfterParts(limit: Limit, b: Bucket, first: seq<int>, later: seq<int>)
    ensures AfterAll(limit, b, first + later) == AfterAll(limit, AfterAll(limit, b, first), later)
    decreases |first|
  {
    if first == [] {
      assert first + later == later;
    } else {
      assert (first + later)[1..] == first[1..] + later;
      AfterParts(limit, After(limit, b, first[0]), first[1..], later);
    }
  }

  /** Cutting a run of calls at `i` leaves two runs whose clocks do not go back. */
  lemma ForwardParts(limit: Limit, b: Bucket, times: seq<int>, i: nat, j: nat)
    requires Sensible(limit) && InRange(limit, b) && Forward(b, times) && i < j <= |times|
    ensures Forward(b, times[..i]) && Forward(AfterAll(limit, b, times[..i]), times[i..j])
  {
    RunInRange(limit, b, times[..i]);
  }

  predicate InRange(limit: Limit, b: Bucket) { 0.0 <= b.tokens <= limit.capacity }

  lemma GainAdds(limit: Limit, a: int, b: int)
    ensures Gain(limit, a) + Gain(limit, b) == Gain(limit, a + b)
  {}

  lemma GainGrows(limit: Limit, a: int, b: int)
    requires Sensible(limit) && a <= b
    ensures Gain(limit, a) <= Gain(limit, b)
  {}

  lemma StepInRange(limit: Limit, b: Bucket, now: int)
    requires Sensible(limit) && InRange(limit, b) && b.lastRefillMs <= now
    ensures InRange(limit, After(limit, b, now))
  {
    GainGrows(limit, 0, now - b.lastRefillMs);
  }

  lemma {:induction false} RunInRange(limit: Limit, b: Bucket, times: seq<int>)
    requires Sensible(limit) && InRange(limit, b) && Forward(b, times)
    ensures InRange(limit, AfterAll(limit, b, times))
    ensures times != [] ==> AfterAll(limit, b, times).lastRefillMs == times[|times| - 1]
    decreases |times|
  {
    if times != [] {
      StepInRange(limit, b, times[0]);
      RunInRange(limit, After(limit, b, times[0]), times[1..]);
    }
  }

  /** Admissions plus what is left never exceed what was there plus what flowed in. */
  lemma {:induction false} AdmissionsPaidFor(limit: Limit, b: Bucket, times: seq<int>)
    requires Sensible(limit) && times != [] && Forward(b, times)
    ensures Admitted(limit, b, times) as real + AfterAll(limit, b, times).tokens
            <= Level(limit, b, times[0]) + Gain(limit, times[|times| - 1] - times[0])
    decreases |times|
  {
    var next, rest := After(limit, b, times[0]), times[1..];
    if rest != [] {
      AdmissionsPaidFor(limit, next, rest);
      GainAdds(limit, rest[0] - times[0], rest[|rest| - 1] - rest[0]);
    }
  }

  /**
   In any window of any run, at most the capacity plus the refill over the window's length is
   admitted.
   */
  lemma WindowBound(limit: Limit, b: Bucket, before: seq<int>, window: seq<int>)
    requires Sensible(limit) && InRange(limit, b) && Forward(b, before) && window != []
    requires Forward(AfterAll(limit, b, before), window)
    ensures Admitted(limit, AfterAll(limit, b, before), window) as real
            <= limit.capacity + Gain(limit, window[|window| - 1] - window[0])
  {
    RunInRange(limit, b, before);
    var start := AfterAll(limit, b, before);
    AdmissionsPaidFor(limit, start, window);
    RunInRange(limit, start, window);
  }

  /** A bucket pays for as many calls as it holds tokens, however close they come: a burst is admitted. */
  lemma {:induction false} BurstIsAdmitted(limit: Limit, b: Bucket, times: seq<int>)
    requires Sensible(limit) && InRange(limit, b) && Forward(b, times) && |times| as real <= b.tokens
    ensures Admitted(limit, b, times) == |times|
    ensures AfterAll(limit, b, times).tokens >= b.tokens - |times| as real
    decreases |times|
  {
    if times != [] {
      GainGrows(limit, 0, times[0] - b.lastRefillMs);
      StepInRange(limit, b, times[0]);
      BurstIsAdmitted(limit, After(limit, b, times[0]), times[1..]);
    }
  }

  /** Calls far enough apart for a token to flow in between are all admitted. */
  lemma {:induction false} PaceIsAdmitted(limit: Limit, b: Bucket, times: seq<int>)
    requires Sensible(limit) && InRange(limit, b)
    requires times != [] ==> Gain(limit, times[0] - b.lastRefillMs) >= 1.0
    requires forall i | 0 < i < |times| :: Gain(limit, times[i] - times[i - 1]) >= 1.0
    ensures Admitted(limit, b, times) == |times|
    decreases |times|
  {
    if times != [] {
      var rest := times[1..];
      forall i | 0 < i < |rest| ensures Gain(limit, rest[i] - rest[i - 1]) >= 1.0 {
        assert rest[i] == times[i + 1] && rest[i - 1] == times[i];
      }
      PaceIsAdmitted(limit, After(limit, b, times[0]), rest);
    }
  }

  // ---------------------------------------------------------------- Retry-After is exact

  /** The wait is the first whole number of milliseconds that refills the bucket to one token. */
  lemma RetryIsThreshold(limit: Limit, tokens: real, ms: int)
    requires Sensible(limit) && tokens < 1.0
    ensures tokens + Gain(limit, ms) >= 1.0 <==> ms >= RetryAfter(limit, tokens)
  {
    var rate := limit.refillPerSecond;
    var x := (1.0 - tokens) / rate * 1000.0;
    assert x > 0.0;
    assert x / 1000.0 * rate == 1.0 - tokens;
    if ms as real >= x {
      Scaled(x, ms as real, rate);
    } else {
      ScaledLess(ms as real, x, rate);
    }
  }

  lemma Scaled(x: real, y: real, rate: real)
    requires x <= y && rate > 0.0
    ensures x / 1000.0 * rate <= y / 1000.0 * rate
  {}

  lemma ScaledLess(x: real, y: real, rate: real)
    requires x < y && rate > 0.0
    ensures x / 1000.0 * rate < y / 1000.0 * rate
  {}

  /**
   A finite wait announced to a refused caller is kept if and only if the bucket holds at least one
   token; an infinite one always is.
   */
  lemma AnnouncedHonestIff(limit: Limit, b: Bucket)
    requires limit.refillPerSecond >= 0.0 && b.tokens < 1.0
    ensures match Announced(limit, b.tokens)
            case Millis(ms) => Admits(limit, b, b.lastRefillMs + ms) <==> limit.capacity >= 1.0
            case Forever => forall now :: !Admits(limit, b, now)
  {
    if limit.refillPerSecond > 0.0 && limit.capacity >= 1.0 {
      RetryIsThreshold(limit, b.tokens, RetryAfter(limit, b.tokens));
    }
  }

  /**
   After a refusal at time `b.lastRefillMs` every call before the announced time is refused and
   changes nothing but the level, and the first call at or after it is admitted.
   */
  lemma {:induction false} RetryAfterExact(limit: Limit, b: Bucket, early: seq<int>, late: int)
    requires Sensible(limit) && InRange(limit, b) && b.tokens < 1.0 && Forward(b, early)
    requires forall i | 0 <= i < |early| :: early[i] < b.lastRefillMs + RetryAfter(limit, b.tokens)
    requires b.lastRefillMs + RetryAfter(limit, b.tokens) <= late
    ensures Admitted(limit, b, early) == 0
    ensures Admits(limit, AfterAll(limit, b, early), late)
    decreases |early|
  {
    if early == [] {
      RetryIsThreshold(limit, b.tokens, late - b.lastRefillMs);
    } else {
      var ms := early[0] - b.lastRefillMs;
      RetryIsThreshold(limit, b.tokens, ms);
      var next := After(limit, b, early[0]);
      StepInRange(limit, b, early[0]);
      RetryMoves(limit, b.tokens, ms);
      RetryAfterExact(limit, next, early[1..], late);
    }
  }

  /** Waiting `ms` shortens the announced wait by exactly `ms`. */
  lemma RetryMoves(limit: Limit, tokens: real, ms: int)
    requires Sensible(limit) && tokens < 1.0 && 0 <= ms < RetryAfter(limit, tokens)
    ensures tokens + Gain(limit, ms) < 1.0
    ensures RetryAfter(limit, tokens + Gain(limit, ms)) == RetryAfter(limit, tokens) - ms
  {
    var now := tokens + Gain(limit, ms);
    var r, q := RetryAfter(limit, tokens), RetryAfter(limit, now);
    RetryIsThreshold(limit, tokens, ms);
    RetryIsThreshold(limit, tokens, ms + q);
    RetryIsThreshold(limit, tokens, ms + q - 1);
    RetryIsThreshold(limit, now, q);
    RetryIsThreshold(limit, now, q - 1);
    GainAdds(limit, ms, q);
    GainAdds(limit, ms, q - 1);
  }
}
