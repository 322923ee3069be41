/** The token bucket of core/src/limit.rs, with real-valued time and tokens. */
module Limiter {
  import opened Base

  const MIN_BURST_BYTES: nat := 10 * 1500
  const MAX_WRITE_CHUNK: nat := 64 * 1024

  datatype Bucket = Bucket(tokens: real, lastRefill: real)

  datatype Limits = Limits(rate: nat, burst: nat)

  /** `new`; `optional` builds a limiter only for a positive rate. */
  function LimitsFor(rate: nat): Limits {
    Limits(rate, Max(rate / 250, MIN_BURST_BYTES))
  }

  datatype Request =
    | Stream(requested: nat)   // take_stream_budget: any part of it will do
    | Exact(requested: nat)    // one round of wait_for: all or nothing

  datatype Decision = Ready(granted: nat) | Wait(seconds: real)

  // ================================================================ one attempt

  function MinReal(a: real, b: real): real {
    if a <= b then a else b
  }

  function MaxReal(a: real, b: real): real {
    if a >= b then a else b
  }

  /** The tokens there would be if the bucket were refilled at `now`. */
  function Level(l: Limits, b: Bucket, now: real): real {
    var elapsed := if now > b.lastRefill then now - b.lastRefill else 0.0;
    MinReal(b.tokens + l.rate as real * elapsed, l.burst as real)
  }

  function WaitDuration(l: Limits, missing: real): real {
    MaxReal(missing, 1.0) / (Max(l.rate, 1) as real)
  }

  /** One attempt at `now`. */
  function Attempt(l: Limits, b: Bucket, now: real, request: Request): (Bucket, Decision) {
    if request.requested == 0 then (b, Ready(0))
    else
      var level := Level(l, b, now);
      match request
      case Stream(requested) =>
        if level >= 1.0 then
          var granted := Min(Min(requested, level.Floor), MAX_WRITE_CHUNK);
          (Bucket(level - granted as real, now), Ready(granted))
        else (Bucket(level, now), Wait(WaitDuration(l, 1.0 - level)))
      case Exact(requested) =>
        if level >= requested as real then
          (Bucket(level - requested as real, now), Ready(requested))
        else (Bucket(level, now), Wait(WaitDuration(l, requested as real - level)))
  }

  function Granted(d: Decision): nat {
    if d.Ready? then d.granted else 0
  }

  predicate ValidBucket(l: Limits, b: Bucket) {
    0.0 <= b.tokens <= l.burst as real
  }

  predicate ValidLimits(l: Limits) {
    l.rate >= 1 && l.burst >= 1
  }

  lemma {:induction false} Product(rate: real, t: real)
    requires rate >= 0.0 && t >= 0.0
    ensures rate * t >= 0.0
  {
  }

  lemma {:induction false} Distribute(rate: real, a: real, b: real, c: real)
    ensures rate * (c - a) == rate * (b - a) + rate * (c - b)
  {
  }

  /** Tokens stay between zero and the burst, and what an attempt grants is what the level loses. */
  lemma {:induction false} AttemptConserves(l: Limits, b: Bucket, now: real, request: Request)
    requires ValidBucket(l, b) && b.lastRefill <= now
    ensures
      var (b', d) := Attempt(l, b, now, request);
      && ValidBucket(l, b') && b'.lastRefill <= now
      && Granted(d) <= request.requested
      && Level(l, b', now) + Granted(d) as real == Level(l, b, now)
  {
    Product(l.rate as real, now - b.lastRefill);
  }

  /**
   * A stream grant is as large as it can be: it is cut short only at 64 KiB or when less than a token is left.
   * Without a whole token there is none.
   */
  lemma {:induction false} StreamMaximal(l: Limits, b: Bucket, now: real, requested: nat)
    requires requested > 0
    ensures
      var (b', d) := Attempt(l, b, now, Stream(requested));
      && (d.Ready? <==> Level(l, b, now) >= 1.0)
      && (d.Ready? ==>
            && d.granted <= requested && d.granted <= 65536 && b'.tokens == Level(l, b, now) - d.granted as real >= 0.0
            && (d.granted < requested ==> d.granted == 65536 || b'.tokens < 1.0))
  {
  }

  /** A wait lasts exactly as long as the refill of what is missing takes, and of one token at least. */
  lemma {:induction false} WaitLength(l: Limits, b: Bucket, now: real, request: Request)
    requires l.rate >= 1 && Attempt(l, b, now, request).1.Wait?
    ensures
      var missing := (if request.Stream? then 1.0 else request.requested as real) - Level(l, b, now);
      l.rate as real * Attempt(l, b, now, request).1.seconds == if missing >= 1.0 then missing else 1.0
  {
    RateTimesWait(l, Needed(request) - Level(l, b, now));
  }

  // ================================================================ whole runs

  /** An attempt by any of the callers that share the limiter. */
  datatype Call = Call(now: real, request: Request)

  predicate Ordered(calls: seq<Call>) {
    forall i, j | 0 <= i < j < |calls| :: calls[i].now <= calls[j].now
  }

  ghost function BucketAfter(l: Limits, b: Bucket, calls: seq<Call>): Bucket {
    if calls == [] then b
    else
      var last := calls[|calls| - 1];
      Attempt(l, BucketAfter(l, b, calls[..|calls| - 1]), last.now, last.request).0
  }

  /** All that was granted in a run. */
  ghost function Total(l: Limits, b: Bucket, calls: seq<Call>): nat {
    if calls == [] then 0
    else
      var last := calls[|calls| - 1];
      Total(l, b, calls[..|calls| - 1])
      + Granted(Attempt(l, BucketAfter(l, b, calls[..|calls| - 1]), last.now, last.request).1)
  }

  lemma {:induction false} LevelGrows(l: Limits, b: Bucket, now: real, later: real)
    requires b.lastRefill <= now <= later
    ensures AtMost(Level(l, b, later), Level(l, b, now), l.rate as real, later - now)
  {
    Distribute(l.rate as real, b.lastRefill, now, later);
    Product(l.rate as real, later - now);
  }

  /** The books of a run: what was granted and what is left came from the start level and the refills. */
  ghost predicate Conserves(l: Limits, b: Bucket, calls: seq<Call>)
    requires calls != []
  {
    var first, last := calls[0].now, calls[|calls| - 1].now;
    var b' := BucketAfter(l, b, calls);
    && ValidBucket(l, b') && b'.lastRefill <= last
    && AtMost(Total(l, b, calls) as real + Level(l, b', last), Level(l, b, first), l.rate as real, last - first)
  }

  predicate AtMost(x: real, start: real, rate: real, time: real) {
    x <= start + rate * time
  }

  lemma {:induction false} Accumulate(x: real, start: real, rate: real, time: real, y: real, more: real)
    requires AtMost(x, start, rate, time) && AtMost(y, x, rate, more)
    ensures AtMost(y, start, rate, time + more)
  {
  }

  lemma {:induction false} Shift(x: real, start: real, rate: real, time: real, offset: real)
    requires AtMost(x, start, rate, time)
    ensures AtMost(offset + x, offset + start, rate, time)
  {
  }

  lemma {:induction false} RunConserves(l: Limits, b: Bucket, calls: seq<Call>)
    requires ValidBucket(l, b) && Ordered(calls) && calls != [] && b.lastRefill <= calls[0].now
    ensures Conserves(l, b, calls)
  {
    var call := calls[|calls| - 1];
    var before := calls[..|calls| - 1];
    if before == [] {
      AttemptConserves(l, b, call.now, call.request);
    } else {
      RunConserves(l, b, before);
      CallConserves(l, b, before, call);
      assert calls == before + [call];
    }
  }

  lemma {:induction false} CallConserves(l: Limits, b: Bucket, before: seq<Call>, call: Call)
    requires before != [] && before[|before| - 1].now <= call.now && Conserves(l, b, before)
    ensures Conserves(l, b, before + [call])
  {
    var calls := before + [call];
    assert calls[..|calls| - 1] == before;
    var first, previous := before[0].now, before[|before| - 1].now;
    var mid := BucketAfter(l, b, before);
    AttemptConserves(l, mid, call.now, call.request);
    LevelGrows(l, mid, previous, call.now);
    var granted := Granted(Attempt(l, mid, call.now, call.request).1) as real;
    var x := Total(l, b, before) as real + Level(l, mid, previous);
    var y := Total(l, b, calls) as real + Level(l, BucketAfter(l, b, calls), call.now);
    assert y == Total(l, b, before) as real + Level(l, mid, call.now);
    Shift(Level(l, mid, call.now), Level(l, mid, previous), l.rate as real, call.now - previous,
          Total(l, b, before) as real);
    Accumulate(x, Level(l, b, first), l.rate as real, previous - first, y, call.now - previous);
    assert (previous - first) + (call.now - previous) == call.now - first;
  }

  lemma {:induction false} RunValid(l: Limits, b: Bucket, calls: seq<Call>, limit: real)
    requires ValidBucket(l, b) && Ordered(calls) && b.lastRefill <= limit
    requires forall c | c in calls :: b.lastRefill <= c.now <= limit
    ensures ValidBucket(l, BucketAfter(l, b, calls)) && BucketAfter(l, b, calls).lastRefill <= limit
  {
    if calls != [] {
      assert calls[|calls| - 1] in calls && calls[0] in calls;
      RunConserves(l, b, calls);
    }
  }

  /**
   * The rate bound, over every interleaving of callers: the calls made between `from` and `to`, wherever
   * they lie in a run, are together granted at most the burst plus the rate times the elapsed time.
   */
  lemma {:induction false} RateBound(l: Limits, b: Bucket, earlier: seq<Call>, window: seq<Call>, from: real, to: real)
    requires ValidBucket(l, b) && Ordered(earlier + window) && from <= to
    requires forall c | c in earlier + window :: b.lastRefill <= c.now
    requires forall c | c in window :: from <= c.now <= to
    ensures AtMost(Total(l, BucketAfter(l, b, earlier), window) as real, l.burst as real, l.rate as real, to - from)
    ensures Total(l, b, earlier + window) == Total(l, b, earlier) + Total(l, BucketAfter(l, b, earlier), window)
  {
    TotalSplits(l, b, earlier, window);
    if window != [] {
      WindowStart(l, b, earlier, window);
    }
    WindowBound(l, BucketAfter(l, b, earlier), window, from, to);
  }

  lemma {:induction false} WindowBound(l: Limits, b: Bucket, window: seq<Call>, from: real, to: real)
    requires from <= to && forall c | c in window :: from <= c.now <= to
    requires window != [] ==> ValidBucket(l, b) && Ordered(window) && b.lastRefill <= window[0].now
    ensures AtMost(Total(l, b, window) as real, l.burst as real, l.rate as real, to - from)
  {
    if window == [] {
      NothingGranted(l, to - from);
    } else {
      assert window[0] in window && window[|window| - 1] in window;
      BelowBurst(l, b, window);
      Widen(Total(l, b, window) as real, l.burst as real, l.rate as real,
            window[|window| - 1].now - window[0].now, to - from);
    }
  }

  lemma {:induction false} NothingGranted(l: Limits, time: real)
    requires time >= 0.0
    ensures AtMost(0.0, l.burst as real, l.rate as real, time)
  {
    Product(l.rate as real, time);
  }

  lemma {:induction false} BelowBurst(l: Limits, b: Bucket, calls: seq<Call>)
    requires ValidBucket(l, b) && Ordered(calls) && calls != [] && b.lastRefill <= calls[0].now
    ensures AtMost(Total(l, b, calls) as real, l.burst as real, l.rate as real, calls[|calls| - 1].now - calls[0].now)
  {
    RunConserves(l, b, calls);
    var b' := BucketAfter(l, b, calls);
    LevelRange(l, b', calls[|calls| - 1].now);
    LowerUpper(Total(l, b, calls) as real + Level(l, b', calls[|calls| - 1].now), Level(l, b, calls[0].now),
               l.rate as real, calls[|calls| - 1].now - calls[0].now,
               Total(l, b, calls) as real, l.burst as real);
  }

  lemma {:induction false} LevelRange(l: Limits, b: Bucket, now: real)
    requires ValidBucket(l, b)
    ensures 0.0 <= Level(l, b, now) <= l.burst as real
  {
    if now > b.lastRefill {
      Product(l.rate as real, now - b.lastRefill);
    }
  }

  lemma {:induction false} LowerUpper(x: real, start: real, rate: real, time: real, lower: real, upper: real)
    requires AtMost(x, start, rate, time) && lower <= x && start <= upper
    ensures AtMost(lower, upper, rate, time)
  {
  }

  lemma {:induction false} Widen(x: real, start: real, rate: real, time: real, more: real)
    requires AtMost(x, start, rate, time) && rate >= 0.0 && time <= more
    ensures AtMost(x, start, rate, more)
  {
    assert rate * more == rate * time + rate * (more - time);
  }

  lemma {:induction false} WindowStart(l: Limits, b: Bucket, earlier: seq<Call>, window: seq<Call>)
    requires ValidBucket(l, b) && Ordered(earlier + window) && window != []
    requires forall c | c in earlier + window :: b.lastRefill <= c.now
    ensures ValidBucket(l, BucketAfter(l, b, earlier)) && BucketAfter(l, b, earlier).lastRefill <= window[0].now
    ensures Ordered(window)
  {
    var all := earlier + window;
    assert forall i | 0 <= i < |window| :: window[i] == all[|earlier| + i];
    assert forall i | 0 <= i < |earlier| :: earlier[i] == all[i];
    assert window[0] in all;
    forall c | c in earlier
      ensures b.lastRefill <= c.now <= window[0].now
    {
      assert c in all;
    }
    RunValid(l, b, earlier, window[0].now);
  }

  lemma {:induction false} TotalSplits(l: Limits, b: Bucket, xs: seq<Call>, ys: seq<Call>)
    ensures BucketAfter(l, b, xs + ys) == BucketAfter(l, BucketAfter(l, b, xs), ys)
    ensures Total(l, b, xs + ys) == Total(l, b, xs) + Total(l, BucketAfter(l, b, xs), ys)
  {
    if ys == [] {
      assert xs + ys == xs;
    } else {
      var init := ys[..|ys| - 1];
      TotalSplits(l, b, xs, init);
      var all := xs + ys;
      assert all[..|all| - 1] == xs + init && all[|all| - 1] == ys[|ys| - 1];
    }
  }

  // ---------------------------------------------------------------- for a configured rate

  /** What a limiter for `rate` bytes a second lets pass at once. */
  function ConfiguredBurst(rate: nat): nat {
    if rate / 250 >= 15000 then rate / 250 else 15000
  }

  /** The bound for a limiter made for `rate`: what passes in any window, whoever asks. */
  lemma {:induction false} ConfiguredBound(rate: nat, b: Bucket, earlier: seq<Call>, window: seq<Call>,
                                           from: real, to: real)
    requires ValidBucket(LimitsFor(rate), b) && Ordered(earlier + window) && from <= to
    requires forall c | c in earlier + window :: b.lastRefill <= c.now
    requires forall c | c in window :: from <= c.now <= to
    ensures
      var l := LimitsFor(rate);
      var granted := Total(l, BucketAfter(l, b, earlier), window);
      AtMost(granted as real, ConfiguredBurst(rate) as real, rate as real, to - from)
  {
    RateBound(LimitsFor(rate), b, earlier, window, from, to);
    assert LimitsFor(rate) == Limits(rate, ConfiguredBurst(rate));
  }

  /** A call that finds the bucket not full, so that no refill is lost. */
  predicate RoomAt(l: Limits, b: Bucket, now: real) {
    b.lastRefill <= now && AtMost(b.tokens, l.burst as real, -(l.rate as real), now - b.lastRefill)
  }

  ghost predicate Unfilled(l: Limits, b: Bucket, calls: seq<Call>) {
    calls != [] ==>
      && Unfilled(l, b, calls[..|calls| - 1])
      && RoomAt(l, BucketAfter(l, b, calls[..|calls| - 1]), calls[|calls| - 1].now)
  }

  /** What was granted and what is left is what was there and what was refilled. */
  predicate Balanced(granted: real, left: real, start: real, rate: real, time: real) {
    granted + left == start + rate * time
  }

  lemma {:induction false} Balance(granted: real, mid: real, start: real, rate: real, time: real,
                                   more: real, left: real, later: real)
    requires Balanced(granted, mid, start, rate, time) && Balanced(more, left, mid, rate, later)
    ensures Balanced(granted + more, left, start, rate, time + later)
  {
  }

  /** While there is room the books balance exactly. */
  lemma {:induction false} ExactBooks(l: Limits, b: Bucket, calls: seq<Call>)
    requires Unfilled(l, b, calls)
    ensures
      var b' := BucketAfter(l, b, calls);
      Balanced(Total(l, b, calls) as real, b'.tokens, b.tokens, l.rate as real, b'.lastRefill - b.lastRefill)
  {
    if calls != [] {
      var before, call := calls[..|calls| - 1], calls[|calls| - 1];
      ExactBooks(l, b, before);
      var mid := BucketAfter(l, b, before);
      ExactCall(l, mid, call);
      var (b', d) := Attempt(l, mid, call.now, call.request);
      ExactSnoc(Total(l, b, before), Granted(d), b, mid, b', l.rate as real);
    }
  }

  lemma {:induction false} ExactSnoc(total: nat, more: nat, b: Bucket, mid: Bucket, b': Bucket, rate: real)
    requires Balanced(total as real, mid.tokens, b.tokens, rate, mid.lastRefill - b.lastRefill)
    requires Balanced(more as real, b'.tokens, mid.tokens, rate, b'.lastRefill - mid.lastRefill)
    ensures Balanced((total + more) as real, b'.tokens, b.tokens, rate, b'.lastRefill - b.lastRefill)
  {
    Balance(total as real, mid.tokens, b.tokens, rate, mid.lastRefill - b.lastRefill,
            more as real, b'.tokens, b'.lastRefill - mid.lastRefill);
    assert (mid.lastRefill - b.lastRefill) + (b'.lastRefill - mid.lastRefill) == b'.lastRefill - b.lastRefill;
  }

  lemma {:induction false} ExactCall(l: Limits, b: Bucket, call: Call)
    requires RoomAt(l, b, call.now)
    ensures
      var (b', d) := Attempt(l, b, call.now, call.request);
      && Balanced(Granted(d) as real, b'.tokens, b.tokens, l.rate as real, b'.lastRefill - b.lastRefill)
      && (call.request.requested > 0 ==> b'.lastRefill == call.now)
  {
    if call.request.requested > 0 {
      ExactLevel(l, b, call.now);
      var (b', d) := Attempt(l, b, call.now, call.request);
      assert b'.lastRefill == call.now && Granted(d) as real + b'.tokens == Level(l, b, call.now);
    }
  }

  lemma {:induction false} ExactLevel(l: Limits, b: Bucket, now: real)
    requires RoomAt(l, b, now)
    ensures Balanced(0.0, Level(l, b, now), b.tokens, l.rate as real, now - b.lastRefill)
  {
    var rate, elapsed := l.rate as real, now - b.lastRefill;
    assert (-rate) * elapsed == -(rate * elapsed);
  }

  /** The last call asked for more than it got, and not because of the 64 KiB limit. */
  ghost predicate EndsHungry(l: Limits, b: Bucket, calls: seq<Call>) {
    calls != [] && Hungry(l, BucketAfter(l, b, calls[..|calls| - 1]), calls[|calls| - 1])
  }

  predicate Hungry(l: Limits, b: Bucket, call: Call) {
    && call.request.Stream? && call.request.requested > 0
    && var d := Attempt(l, b, call.now, call.request).1;
       d.Wait? || (d.granted < call.request.requested && d.granted != 65536)
  }

  /**
   * And the limiter is not slower than it was made for: callers who keep asking, so that the bucket never fills
   * up, and are still hungry at the end have been granted the rate times the time, to within a token.
   */
  lemma {:induction false} ConfiguredRateReached(rate: nat, b: Bucket, calls: seq<Call>)
    requires
      var l := LimitsFor(rate);
      Unfilled(l, b, calls) && EndsHungry(l, b, calls)
    ensures
      var total := Total(LimitsFor(rate), b, calls);
      Reaches(total as real, b.tokens, rate as real, calls[|calls| - 1].now - b.lastRefill)
  {
    var l := LimitsFor(rate);
    ExactBooks(l, b, calls);
    HungryLeft(l, BucketAfter(l, b, calls[..|calls| - 1]), calls[|calls| - 1]);
    var b' := BucketAfter(l, b, calls);
    ReachesIfSpent(Total(l, b, calls) as real, b'.tokens, b.tokens, rate as real, b'.lastRefill - b.lastRefill);
  }

  /** All of what was there and of what `rate` refilled in that time was granted, to within a token. */
  predicate Reaches(granted: real, start: real, rate: real, time: real) {
    start + rate * time - 1.0 < granted
  }

  lemma {:induction false} ReachesIfSpent(granted: real, left: real, start: real, rate: real, time: real)
    requires Balanced(granted, left, start, rate, time) && left < 1.0
    ensures Reaches(granted, start, rate, time)
  {
  }

  lemma {:induction false} HungryLeft(l: Limits, b: Bucket, call: Call)
    requires Hungry(l, b, call)
    ensures
      var b' := Attempt(l, b, call.now, call.request).0;
      b'.tokens < 1.0 && b'.lastRefill == call.now
  {
    StreamMaximal(l, b, call.now, call.request.requested);
  }

  // ================================================================ waiting

  /** What a lone caller asks for can be granted at all. */
  predicate Grantable(l: Limits, request: Request) {
    request.Stream? || request.requested <= l.burst
  }

  lemma {:induction false} RateTimesWait(l: Limits, missing: real)
    requires l.rate >= 1
    ensures l.rate as real * WaitDuration(l, missing) == MaxReal(missing, 1.0)
    ensures WaitDuration(l, missing) > 0.0
  {
    var rate := l.rate as real;
    var m := MaxReal(missing, 1.0);
    assert rate * (m / rate) == m;
  }

  /** Waiting for what is missing fills the bucket up to what is needed. */
  lemma {:induction false} Refilled(l: Limits, level: real, now: real, later: real, needed: real)
    requires ValidLimits(l) && level < needed <= l.burst as real
    requires later >= now + WaitDuration(l, needed - level)
    ensures Level(l, Bucket(level, now), later) >= needed
  {
    var rate, seconds := l.rate as real, WaitDuration(l, needed - level);
    RateTimesWait(l, needed - level);
    assert rate * (later - now) == rate * seconds + rate * (later - now - seconds);
    Product(rate, later - now - seconds);
  }

  /** A lone caller that slept as long as it was told is served on its next attempt. */
  lemma {:induction false} WaitSuffices(l: Limits, b: Bucket, now: real, request: Request, later: real)
    requires ValidLimits(l) && ValidBucket(l, b) && b.lastRefill <= now && Grantable(l, request)
    requires Attempt(l, b, now, request).1.Wait?
    requires later >= now + Attempt(l, b, now, request).1.seconds
    ensures Attempt(l, Attempt(l, b, now, request).0, later, request).1.Ready?
    ensures Granted(Attempt(l, Attempt(l, b, now, request).0, later, request).1) >= 1
  {
    Refilled(l, Level(l, b, now), now, later, Needed(request));
  }

  /** When at least one whole token is missing, no earlier attempt would have been served. */
  lemma {:induction false} WaitIsTight(l: Limits, b: Bucket, now: real, request: Request, later: real)
    requires ValidLimits(l) && ValidBucket(l, b) && b.lastRefill <= now && request.Exact?
    requires Attempt(l, b, now, request).1.Wait? && request.requested as real - Level(l, b, now) >= 1.0
    requires now <= later < now + Attempt(l, b, now, request).1.seconds
    ensures Attempt(l, Attempt(l, b, now, request).0, later, request).1.Wait?
  {
    NotYetRefilled(l, Level(l, b, now), now, later, request.requested as real);
  }

  /** Before the time is up the bucket lacks something of what is needed. */
  lemma {:induction false} NotYetRefilled(l: Limits, level: real, now: real, later: real, needed: real)
    requires ValidLimits(l) && needed - level >= 1.0
    requires now <= later < now + WaitDuration(l, needed - level)
    ensures Level(l, Bucket(level, now), later) < needed
  {
    var rate, seconds := l.rate as real, WaitDuration(l, needed - level);
    RateTimesWait(l, needed - level);
    var left := seconds - (later - now);
    assert rate * seconds == rate * (later - now) + rate * left;
    assert rate * left > 0.0;
  }

  /**
   * A lone `wait_for` that sleeps as told returns after at most one sleep exactly when the request fits
   * the burst.
   */
  lemma {:induction false} WaitForReturnsIffFits(l: Limits, b: Bucket, now: real, requested: nat, later: real)
    requires ValidLimits(l) && ValidBucket(l, b) && b.lastRefill <= now
    requires
      var first := Attempt(l, b, now, Exact(requested)).1;
      first.Wait? ==> later >= now + first.seconds
    ensures
      var (b', first) := Attempt(l, b, now, Exact(requested));
      var second := Attempt(l, b', later, Exact(requested)).1;
      first.Ready? || second.Ready? <==> requested <= l.burst
  {
    if requested <= l.burst && Attempt(l, b, now, Exact(requested)).1.Wait? {
      WaitSuffices(l, b, now, Exact(requested), later);
    }
  }

  /** An attempt of `wait_for` for this many bytes is granted in some run, by whatever callers. */
  ghost predicate GrantedInSomeRun(l: Limits, requested: nat) {
    exists b: Bucket, calls: seq<Call>, k: nat :: ValidBucket(l, b) && GrantedAt(l, b, calls, k, requested)
  }

  ghost predicate GrantedAt(l: Limits, b: Bucket, calls: seq<Call>, k: nat, requested: nat) {
    && k < |calls| && calls[k].request == Exact(requested)
    && Attempt(l, BucketAfter(l, b, calls[..k]), calls[k].now, calls[k].request).1.Ready?
  }

  /** That happens exactly when the request fits the burst: a larger one waits for ever in every run. */
  lemma {:induction false} GrantedInSomeRunIffFits(l: Limits, requested: nat)
    requires ValidLimits(l)
    ensures GrantedInSomeRun(l, requested) <==> requested <= l.burst
  {
    if requested <= l.burst {
      var b, calls := Bucket(l.burst as real, 0.0), [Call(0.0, Exact(requested))];
      assert calls[..0] == [];
      assert GrantedAt(l, b, calls, 0, requested);
    }
  }

  // ================================================================ the imperative code

  /** A monotonic clock: time passes between readings, and a sleep lasts at least as long as asked. */
  class Clock {
    var now: real
    var drift: real

    ghost predicate Valid()
      reads this
    {
      drift >= 0.0
    }

    constructor (start: real, drift: real)
      requires drift >= 0.0
      ensures Valid() && now == start
    {
      this.now, this.drift := start, drift;
    }

    method Now() returns (t: real)
      requires Valid()
      modifies this
      ensures Valid() && old(now) <= now == t
    {
      now := now + drift;
      t := now;
    }

    method Sleep(seconds: real)
      requires Valid() && seconds >= 0.0
      modifies this
      ensures Valid() && now >= old(now) + seconds
    {
      now := now + seconds + drift;
    }
  }

  lemma {:induction false} LevelRises(l: Limits, b: Bucket, now: real, later: real)
    requires now <= later
    ensures Level(l, b, now) <= Level(l, b, later)
  {
    if now > b.lastRefill {
      Distribute(l.rate as real, b.lastRefill, now, later);
      Product(l.rate as real, later - now);
    } else if later > b.lastRefill {
      Product(l.rate as real, later - b.lastRefill);
    }
  }

  /** A limiter as one of its callers sees it: others may take from it between any two of its turns. */
  class BandwidthLimiter {
    const limits: Limits
    var tokens: real
    var lastRefill: real
    var others: seq<seq<Request>>   // what they ask for, before each turn

    ghost function View(): Bucket
      reads this
    {
      Bucket(tokens, lastRefill)
    }

    ghost predicate Valid(clock: Clock)
      reads this, clock
    {
      clock.Valid() && ValidLimits(limits) && ValidBucket(limits, View()) && lastRefill <= clock.now
    }

    constructor (rate: nat, clock: Clock, others: seq<seq<Request>>)
      requires rate > 0 && clock.Valid()
      modifies clock
      ensures Valid(clock) && limits == LimitsFor(rate) && tokens == limits.burst as real && lastRefill == clock.now
      ensures this.others == others
    {
      limits := LimitsFor(rate);
      this.others := others;
      tokens := Max(rate / 250, MIN_BURST_BYTES) as real;
      var start := clock.Now();
      lastRefill := start;
    }

    /** `refill`. */
    method Refill(clock: Clock)
      requires Valid(clock)
      modifies this`tokens, this`lastRefill, clock
      ensures Valid(clock) && clock.now >= old(clock.now)
      ensures View() == Bucket(Level(limits, old(View()), clock.now), clock.now)
    {
      var now := clock.Now();
      LevelRange(limits, View(), now);
      var elapsed := if now > lastRefill then now - lastRefill else 0.0;
      lastRefill := now;
      var replenished := limits.rate as real * elapsed;
      tokens := MinReal(tokens + replenished, limits.burst as real);
    }

    /** `take_stream_budget`. */
    method TakeStreamBudget(clock: Clock, requested: nat) returns (d: Decision)
      requires Valid(clock)
      modifies this`tokens, this`lastRefill, clock
      ensures Valid(clock) && clock.now >= old(clock.now)
      ensures (View(), d) == Attempt(limits, old(View()), clock.now, Stream(requested))
      ensures d.Ready? && requested > 0 ==> Serves(limits, Stream(requested), d.granted, tokens)
    {
      if requested == 0 {
        return Ready(0);
      }
      Refill(clock);
      if tokens >= 1.0 {
        var available := Max(tokens.Floor, 1);
        var granted := Min(Min(requested, available), MAX_WRITE_CHUNK);
        tokens := tokens - granted as real;
        return Ready(granted);
      } else {
        return Wait(WaitDuration(limits, 1.0 - tokens));
      }
    }

    /** What `wait_for` does while it holds the lock. */
    method TakeExact(clock: Clock, requested: nat) returns (d: Decision)
      requires Valid(clock)
      modifies this`tokens, this`lastRefill, clock
      ensures Valid(clock) && clock.now >= old(clock.now)
      ensures (View(), d) == Attempt(limits, old(View()), clock.now, Exact(requested))
    {
      if requested == 0 {
        return Ready(0);
      }
      Refill(clock);
      if tokens >= requested as real {
        tokens := tokens - requested as real;
        return Ready(requested);
      } else {
        return Wait(WaitDuration(limits, requested as real - tokens));
      }
    }

    method Take(clock: Clock, request: Request) returns (d: Decision)
      requires Valid(clock)
      modifies this`tokens, this`lastRefill, clock
      ensures Valid(clock) && clock.now >= old(clock.now)
      ensures (View(), d) == Attempt(limits, old(View()), clock.now, request)
    {
      if request.Stream? {
        d := TakeStreamBudget(clock, request.requested);
      } else {
        d := TakeExact(clock, request.requested);
      }
    }

    /** What other callers do meanwhile: they only take. */
    method OthersTake(clock: Clock, ghost first: real, ghost start: real)
      requires Valid(clock)
      requires AtMost(Level(limits, View(), clock.now), first, limits.rate as real, clock.now - start)
      modifies this, clock
      ensures Valid(clock) && clock.now >= old(clock.now)
      ensures AtMost(Level(limits, View(), clock.now), first, limits.rate as real, clock.now - start)
      ensures old(others) == [] ==> others == [] && View() == old(View()) && clock.now == old(clock.now)
    {
      if others == [] {
        return;
      }
      var requests := others[0];
      others := others[1..];
      for i := 0 to |requests|
        invariant Valid(clock) && clock.now >= old(clock.now)
        invariant AtMost(Level(limits, View(), clock.now), first, limits.rate as real, clock.now - start)
      {
        ghost var b, before := View(), clock.now;
        var d := Take(clock, requests[i]);
        AttemptBooks(limits, b, before, clock.now, requests[i], first, start);
        Less(Granted(d), Level(limits, View(), clock.now), first, limits.rate as real, clock.now - start);
      }
    }

    /** One round of either loop: take what is there, or sleep until there should be enough. */
    method TryOrSleep(clock: Clock, request: Request, ghost first: real, ghost start: real) returns (d: Decision)
      requires Valid(clock) && request.requested > 0
      requires AtMost(Level(limits, View(), clock.now), first, limits.rate as real, clock.now - start)
      modifies this, clock
      ensures Valid(clock) && clock.now >= old(clock.now)
      ensures AtMost(Granted(d) as real + Level(limits, View(), clock.now), first, limits.rate as real,
                     clock.now - start)
      ensures d.Ready? ==> Serves(limits, request, d.granted, Level(limits, View(), clock.now))
      ensures old(others) == [] ==> others == []
      ensures old(others) == [] && Grantable(limits, request) ==>
                && (d.Wait? ==> Level(limits, View(), clock.now) >= Needed(request))
                && (old(Level(limits, View(), clock.now)) >= Needed(request) ==> d.Ready?)
    {
      OthersTake(clock, first, start);
      ghost var b, before := View(), clock.now;
      d := Take(clock, request);
      AttemptBooks(limits, b, before, clock.now, request, first, start);
      ReadyServes(limits, b, clock.now, request);
      if d.Wait? {
        ghost var asked := clock.now;
        WaitPositive(limits, b, asked, request);
        clock.Sleep(d.seconds);
        SleptBooks(limits, View(), asked, clock.now, first, start);
        if Grantable(limits, request) {
          SleptEnough(limits, b, asked, request, clock.now);
        }
      }
    }

    /**
     * `wait_for_chunk`, followed for as many rounds as `patience` says: what it returns and what is left
     * never exceed what was there plus what was refilled meanwhile, and a lone caller gets something at
     * the latest in the second round.
     */
    method WaitForChunk(clock: Clock, requested: nat, patience: nat) returns (granted: Option<nat>)
      requires Valid(clock)
      modifies this, clock
      ensures Valid(clock) && clock.now >= old(clock.now)
      ensures granted.Some? && requested > 0 ==>
                Serves(limits, Stream(requested), granted.value, Level(limits, View(), clock.now))
      ensures granted.Some? && requested == 0 ==> granted.value == 0
      ensures AtMost((if granted.Some? then granted.value else 0) as real + Level(limits, View(), clock.now),
                     Level(limits, old(View()), old(clock.now)), limits.rate as real, clock.now - old(clock.now))
      ensures old(others) == [] ==> others == []
      ensures old(others) == [] && patience >= 2 ==> granted.Some?
    {
      if requested == 0 {
        return Some(0);
      }
      var served := WaitLoop(clock, Stream(requested), patience);
      return served;
    }

    /** `wait_for`, followed in the same way: a request larger than the burst is never served. */
    method WaitFor(clock: Clock, requested: nat, patience: nat) returns (served: bool)
      requires Valid(clock)
      modifies this, clock
      ensures Valid(clock) && clock.now >= old(clock.now)
      ensures served ==> requested <= limits.burst
      ensures AtMost((if served then requested else 0) as real + Level(limits, View(), clock.now),
                     Level(limits, old(View()), old(clock.now)), limits.rate as real, clock.now - old(clock.now))
      ensures old(others) == [] ==> others == []
      ensures old(others) == [] && patience >= 2 ==> (served <==> requested <= limits.burst)
    {
      if requested == 0 {
        return true;
      }
      var granted := WaitLoop(clock, Exact(requested), patience);
      return granted.Some?;
    }

    /** Up to `patience` rounds of either loop. */
    method WaitLoop(clock: Clock, request: Request, patience: nat) returns (granted: Option<nat>)
      requires Valid(clock) && request.requested > 0
      modifies this, clock
      ensures Valid(clock) && clock.now >= old(clock.now)
      ensures granted.Some? ==> Serves(limits, request, granted.value, Level(limits, View(), clock.now))
      ensures AtMost((if granted.Some? then granted.value else 0) as real + Level(limits, View(), clock.now),
                     Level(limits, old(View()), old(clock.now)), limits.rate as real, clock.now - old(clock.now))
      ensures old(others) == [] ==> others == []
      ensures old(others) == [] && patience >= 2 && Grantable(limits, request) ==> granted.Some?
    {
      ghost var start := clock.now;
      ghost var first := Level(limits, View(), start);
      for round := 0 to patience
        invariant Valid(clock) && clock.now >= start
        invariant AtMost(Level(limits, View(), clock.now), first, limits.rate as real, clock.now - start)
        invariant old(others) == [] ==> others == []
        invariant old(others) == [] && Grantable(limits, request) && round > 0 ==>
                    round == 1 && Level(limits, View(), clock.now) >= Needed(request)
      {
        var d := TryOrSleep(clock, request, first, start);
        if d.Ready? {
          return Some(d.granted);
        }
      }
      return None;
    }
  }

  /** What a served request gets, given what is left then: as much as there is, or all of it within the burst. */
  predicate Serves(l: Limits, request: Request, granted: nat, left: real) {
    if request.Stream? then
      && 0 < granted <= request.requested && granted <= 65536
      && (granted < request.requested ==> granted == 65536 || left < 1.0)
    else granted == request.requested <= l.burst
  }

  lemma {:induction false} ReadyServes(l: Limits, b: Bucket, now: real, request: Request)
    requires request.requested > 0
    ensures
      var (b', d) := Attempt(l, b, now, request);
      && (d.Ready? ==> Serves(l, request, d.granted, Level(l, b', now)))
      && (Level(l, b, now) >= Needed(request) ==> d.Ready?)
  {
    if request.Stream? {
      StreamMaximal(l, b, now, request.requested);
    }
  }

  lemma {:induction false} Less(granted: nat, level: real, first: real, rate: real, time: real)
    requires AtMost(granted as real + level, first, rate, time)
    ensures AtMost(level, first, rate, time)
  {
  }

  /** One attempt in the middle of a wait keeps the books. */
  lemma {:induction false} AttemptBooks(l: Limits, b: Bucket, before: real, now: real, request: Request,
                                        first: real, start: real)
    requires ValidBucket(l, b) && b.lastRefill <= before <= now
    requires AtMost(Level(l, b, before), first, l.rate as real, before - start)
    ensures Level(l, b, before) <= Level(l, b, now)
    ensures
      var (b', d) := Attempt(l, b, now, request);
      AtMost(Granted(d) as real + Level(l, b', now), first, l.rate as real, now - start)
  {
    LevelRises(l, b, before, now);
    AttemptConserves(l, b, now, request);
    LevelGrows(l, b, before, now);
    Accumulate(Level(l, b, before), first, l.rate as real, before - start, Level(l, b, now), now - before);
  }

  lemma {:induction false} WaitPositive(l: Limits, b: Bucket, now: real, request: Request)
    requires ValidLimits(l) && Attempt(l, b, now, request).1.Wait?
    ensures Attempt(l, b, now, request).1.seconds > 0.0 && Level(l, b, now) < Needed(request)
  {
    RateTimesWait(l, Needed(request) - Level(l, b, now));
  }

  /** The level at which a request is served. */
  function Needed(request: Request): real {
    if request.Stream? then 1.0 else request.requested as real
  }

  /** A sleep keeps the books. */
  lemma {:induction false} SleptBooks(l: Limits, b: Bucket, now: real, later: real, first: real, start: real)
    requires b.lastRefill <= now <= later
    requires AtMost(Level(l, b, now), first, l.rate as real, now - start)
    ensures AtMost(Level(l, b, later), first, l.rate as real, later - start)
  {
    LevelGrows(l, b, now, later);
    Accumulate(Level(l, b, now), first, l.rate as real, now - start, Level(l, b, later), later - now);
  }

  /** After the sleep there is enough for the request. */
  lemma {:induction false} SleptEnough(l: Limits, b: Bucket, now: real, request: Request, later: real)
    requires ValidLimits(l) && ValidBucket(l, b) && b.lastRefill <= now && Grantable(l, request)
    requires Attempt(l, b, now, request).1.Wait?
    requires later >= now + Attempt(l, b, now, request).1.seconds
    ensures Level(l, Attempt(l, b, now, request).0, later) >= Needed(request)
  {
    WaitSuffices(l, b, now, request, later);
  }
}
