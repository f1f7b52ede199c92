/**
 * The token bucket that throttles the Telegram and Slack notifiers
 * (notification-service/internal/notifier/telegram.go).
 * Instants and durations are integer nanoseconds on a clock that never runs backwards.
 */
module TokenBucket {
  import opened Common

  const SLEEP: int := 100_000_000

  /** The fields of the limiter at one moment. */
  datatype Bucket = Bucket(tokens: int, maxTokens: int, refillRate: int, lastRefill: int) {
    ghost predicate Valid() {
      && 0 < refillRate
      && tokens <= maxTokens
    }
  }

  function New(maxTokens: int, refillRate: int, now: int): Bucket {
    Bucket(maxTokens, maxTokens, refillRate, now)
  }

  /** Integer division as the source's language defines it: truncation toward zero. */
  function Quo(a: int, b: int): int
    requires 0 < b
  {
    if 0 <= a then a / b else -(-a / b)
  }

  function Refill(b: Bucket, now: int): Bucket
    requires 0 < b.refillRate
  {
    var add := Quo(now - b.lastRefill, b.refillRate);
    if add > 0 then b.(tokens := Min(b.tokens + add, b.maxTokens), lastRefill := now) else b
  }

  /** One call of Allow: the fields afterwards, and whether a token was granted. */
  function Next(b: Bucket, now: int): (Bucket, bool)
    requires 0 < b.refillRate
  {
    var r := Refill(b, now);
    if r.tokens > 0 then (r.(tokens := r.tokens - 1), true) else (r, false)
  }

  /** The number of grants over a run of calls. */
  ghost function Grants(b: Bucket, times: seq<int>): nat
    requires 0 < b.refillRate
    decreases |times|
  {
    if times == [] then 0 else
      var (b', ok) := Next(b, times[0]);
      (if ok then 1 else 0) + Grants(b', times[1..])
  }

  ghost function After(b: Bucket, times: seq<int>): Bucket
    requires 0 < b.refillRate
    decreases |times|
  {
    if times == [] then b else After(Next(b, times[0]).0, times[1..])
  }

  /** The quotient is the greatest multiplier that stays within the dividend. */
  lemma QuotientIsGreatest(a: int, r: int, q: int)
    requires 0 < r && q * r <= a
    ensures q <= a / r
  {
    var k := a / r + 1;
    assert a < k * r;
    if k <= q { MulMono(k, q, r); }
  }

  lemma MulMono(x: int, y: int, r: int)
    requires x <= y && 0 < r
    ensures x * r <= y * r
  {}

  lemma FloorSum(a: int, b: int, r: int)
    requires 0 <= a && 0 <= b && 0 < r
    ensures a / r + b / r <= (a + b) / r
    ensures 0 <= a / r && 0 <= b / r
  {
    assert (a / r + b / r) * r == a / r * r + b / r * r <= a + b;
    QuotientIsGreatest(a + b, r, a / r + b / r);
  }

  lemma FloorMono(a: int, b: int, r: int)
    requires 0 <= a <= b && 0 < r
    ensures a / r <= b / r
  {
    FloorSum(a, b - a, r);
    assert 0 <= (b - a) / r;
  }

  /** From any state, grants up to `t` are bounded by the tokens in hand and the refill periods since the last refill. */
  lemma {:induction false} GrantsFromState(b: Bucket, times: seq<int>, t: int)
    requires 0 < b.refillRate && ClockFrom(times, b.lastRefill) && b.lastRefill <= t
    requires times != [] ==> times[|times| - 1] <= t
    ensures Grants(b, times) <= Max(b.tokens, 0) + (t - b.lastRefill) / b.refillRate
    decreases |times|
  {
    FloorSum(t - b.lastRefill, 0, b.refillRate);
    if times == [] {
    } else {
      var now := times[0];
      FloorSum(now - b.lastRefill, t - now, b.refillRate);
      GrantsFromState(Next(b, now).0, times[1..], t);
    }
  }

  /** Calls split anywhere: the grants add up. */
  lemma {:induction false} GrantsSplit(b: Bucket, xs: seq<int>, ys: seq<int>)
    requires 0 < b.refillRate
    ensures After(b, xs).refillRate == b.refillRate && After(b, xs).maxTokens == b.maxTokens
    ensures Grants(b, xs + ys) == Grants(b, xs) + Grants(After(b, xs), ys)
    decreases |xs|
  {
    if xs == [] {
      assert xs + ys == ys;
    } else {
      assert (xs + ys)[1..] == xs[1..] + ys;
      GrantsSplit(Next(b, xs[0]).0, xs[1..], ys);
    }
  }

  lemma {:induction false} AfterValid(b: Bucket, xs: seq<int>)
    requires b.Valid() && ClockFrom(xs, b.lastRefill)
    ensures After(b, xs).Valid()
    ensures b.lastRefill <= After(b, xs).lastRefill
    ensures xs != [] ==> After(b, xs).lastRefill <= xs[|xs| - 1]
    ensures xs == [] ==> After(b, xs).lastRefill == b.lastRefill
    decreases |xs|
  {
    if xs == [] {
    } else {
      AfterValid(Next(b, xs[0]).0, xs[1..]);
    }
  }

  /** Since creation, never more grants than the initial tokens plus one per whole refill period. */
  lemma GrantsSinceCreation(maxTokens: int, rate: int, t0: int, times: seq<int>, t: int)
    requires 0 < rate && ClockFrom(times, t0) && t0 <= t
    requires times != [] ==> times[|times| - 1] <= t
    ensures Grants(New(maxTokens, rate, t0), times) <= Max(maxTokens, 0) + (t - t0) / rate
  {
    GrantsFromState(New(maxTokens, rate, t0), times, t);
  }

  /**
   * In any interval [s, t] of any run, at most maxTokens, plus one per whole period, plus one more:
   * the part of a period that had already elapsed when the interval opened.
   */
  lemma GrantsInInterval(maxTokens: int, rate: int, t0: int, before: seq<int>, during: seq<int>, s: int, t: int)
    requires 0 < rate && ClockFrom(before + during, t0) && s <= t
    requires during != [] ==> s <= during[0] && during[|during| - 1] <= t
    ensures var b := New(maxTokens, rate, t0);
            Grants(b, before + during) - Grants(b, before) <= Max(maxTokens, 0) + (t - s) / rate + 1
  {
    var b := New(maxTokens, rate, t0);
    GrantsSplit(b, before, during);
    FloorSum(t - s, 0, rate);
    if during != [] {
      StateBefore(b, before, during);
      IntervalFromState(After(b, before), during, s, t);
    }
  }

  lemma StateBefore(b: Bucket, before: seq<int>, during: seq<int>)
    requires b.Valid() && ClockFrom(before + during, b.lastRefill)
    ensures After(b, before).Valid() && ClockFrom(during, After(b, before).lastRefill)
  {
    ClockSplit(before, during, b.lastRefill);
    AfterValid(b, before);
  }

  lemma ClockSplit(before: seq<int>, during: seq<int>, t0: int)
    requires ClockFrom(before + during, t0)
    ensures ClockFrom(before, t0) && ClockFrom(during, t0)
    ensures before != [] ==> ClockFrom(during, before[|before| - 1])
  {
    var all := before + during;
    assert forall i :: 0 <= i < |before| ==> before[i] == all[i];
    assert forall i :: 0 <= i < |during| ==> during[i] == all[|before| + i];
  }

  lemma IntervalFromState(c: Bucket, during: seq<int>, s: int, t: int)
    requires c.Valid() && during != [] && ClockFrom(during, c.lastRefill)
    requires s <= during[0] && during[|during| - 1] <= t
    ensures Grants(c, during) <= Max(c.maxTokens, 0) + (t - s) / c.refillRate + 1
  {
    if Quo(during[0] - c.lastRefill, c.refillRate) > 0 {
      IntervalOpenedByRefill(c, during, s, t);
    } else {
      GrantsFromState(c, during, t);
      OpenPeriod(c.lastRefill, s, during[0], t, c.refillRate);
    }
  }

  /** When the first call refills, it behaves as a call on the refilled bucket. */
  lemma IntervalOpenedByRefill(c: Bucket, during: seq<int>, s: int, t: int)
    requires c.Valid() && during != [] && ClockFrom(during, c.lastRefill)
    requires s <= during[0] && during[|during| - 1] <= t
    requires Quo(during[0] - c.lastRefill, c.refillRate) > 0
    ensures Grants(c, during) <= Max(c.maxTokens, 0) + (t - s) / c.refillRate
  {
    RefillFirst(c, during);
    GrantsFromState(Refill(c, during[0]), during, t);
    FloorMono(t - during[0], t - s, c.refillRate);
  }

  lemma RefillFirst(c: Bucket, times: seq<int>)
    requires 0 < c.refillRate && times != [] && Quo(times[0] - c.lastRefill, c.refillRate) > 0
    ensures Grants(Refill(c, times[0]), times) == Grants(c, times)
  {
    assert Refill(Refill(c, times[0]), times[0]) == Refill(c, times[0]) by {
      assert Quo(0, c.refillRate) == 0;
    }
  }

  /** A span that opened less than one period before `now` holds at most one period more than the span from `s`. */
  lemma OpenPeriod(last: int, s: int, now: int, t: int, r: int)
    requires 0 < r && last <= now && s <= now <= t && Quo(now - last, r) <= 0
    ensures (t - last) / r <= (t - s) / r + 1
  {
    if now - last >= r { QuotientIsGreatest(now - last, r, 1); }
    FloorMono(t - last, t - s + r, r);
    FloorStep(t - s, r);
  }

  lemma FloorStep(a: int, r: int)
    requires 0 <= a && 0 < r
    ensures (a + r) / r <= a / r + 1
  {
    assert ((a + r) / r - 1) * r == (a + r) / r * r - r <= a;
    QuotientIsGreatest(a, r, (a + r) / r - 1);
  }

  // --- What a pause brings back ---

  /** The source's division truncates toward zero. */
  lemma QuoTruncates(a: int, b: int)
    requires 0 < b
    ensures 0 <= a ==> Quo(a, b) * b <= a < (Quo(a, b) + 1) * b
    ensures a <= 0 ==> (Quo(a, b) - 1) * b < a <= Quo(a, b) * b
  {}

  /** Calls at one instant that is no refill: granted as long as there are tokens. */
  lemma {:induction false} CallsWithoutRefill(b: Bucket, now: int, n: nat)
    requires 0 < b.refillRate && 0 <= b.tokens && Quo(now - b.lastRefill, b.refillRate) <= 0
    ensures Grants(b, seq(n, i => now)) == Min(n, b.tokens)
    ensures After(b, seq(n, i => now)) == b.(tokens := b.tokens - Min(n, b.tokens))
    decreases n
  {
    if n == 0 {
    } else {
      assert seq(n, i => now)[1..] == seq(n - 1, i => now);
      CallsWithoutRefill(Next(b, now).0, now, n - 1);
    }
  }

  /**
   * Any number of calls at one instant, after any pause: exactly the tokens at hand are granted, the rest of the tokens
   * stay, and a refill restarts the period at this instant, with the remainder of the elapsed time lost.
   */
  lemma CallsAtOnce(b: Bucket, now: int, n: nat)
    requires b.Valid() && 0 <= b.tokens && b.lastRefill <= now && 0 < n
    ensures var e := now - b.lastRefill;
            var have := if e < b.refillRate then b.tokens else Min(b.tokens + e / b.refillRate, b.maxTokens);
            && Grants(b, seq(n, i => now)) == Min(n, have)
            && After(b, seq(n, i => now)).tokens == have - Min(n, have)
            && After(b, seq(n, i => now)).lastRefill == if e < b.refillRate then b.lastRefill else now
  {
    var e, r := now - b.lastRefill, b.refillRate;
    if e < r {
      WithinFirstPeriod(e, r);
      CallsWithoutRefill(b, now, n);
    } else {
      FloorMono(r, e, r);
      var refilled := Refill(b, now);
      assert refilled.lastRefill == now && Quo(0, r) == 0;
      assert Refill(refilled, now) == refilled;
      assert seq(n, i => now)[0] == now;
      CallsWithoutRefill(refilled, now, n);
    }
  }

  // --- When the extra one is granted ---

  /** Calls in order, none outside the interval. */
  ghost predicate Within(during: seq<int>, s: int, t: int) {
    ClockFrom(during, s) && (during != [] ==> during[|during| - 1] <= t)
  }

  /** Calls at one instant, as many as there are tokens: all granted. */
  lemma {:induction false} SpendAll(b: Bucket, now: int, n: nat)
    requires 0 < b.refillRate && n <= b.tokens && Quo(now - b.lastRefill, b.refillRate) <= 0
    ensures Grants(b, seq(n, i => now)) == n
    ensures After(b, seq(n, i => now)) == b.(tokens := b.tokens - n)
    decreases n
  {
    if n == 0 {
    } else {
      assert seq(n, i => now)[1..] == seq(n - 1, i => now);
      SpendAll(b.(tokens := b.tokens - 1), now, n - 1);
    }
  }

  function Ticks(from: int, rate: int, n: nat): (ts: seq<int>)
    ensures |ts| == n && forall i :: 0 <= i < n ==> ts[i] == from + (i + 1) * rate
  {
    seq(n, i => from + (i + 1) * rate)
  }

  /** An empty bucket asked at the end of every period: all granted. */
  lemma {:induction false} GrantEveryPeriod(b: Bucket, n: nat)
    requires 0 < b.refillRate && b.tokens == 0 && 1 <= b.maxTokens
    ensures Grants(b, Ticks(b.lastRefill, b.refillRate, n)) == n
    decreases n
  {
    if n == 0 {
    } else {
      var ts := Ticks(b.lastRefill, b.refillRate, n);
      assert ts[0] == b.lastRefill + b.refillRate;
      OnePeriod(b.refillRate);
      assert Next(b, ts[0]) == (b.(lastRefill := ts[0]), true);
      assert ts[1..] == Ticks(ts[0], b.refillRate, n - 1);
      GrantEveryPeriod(b.(lastRefill := ts[0]), n - 1);
    }
  }

  lemma OnePeriod(r: int)
    requires 0 < r
    ensures Quo(r, r) == 1
  {}

  lemma TicksWithin(last: int, s: int, t: int, r: int, n: nat)
    requires 0 < r && last <= s < last + r && n * r <= t - last
    ensures Within(Ticks(last, r, n), s, t)
  {
    var ts := Ticks(last, r, n);
    forall i, j | 0 <= i <= j < n ensures s <= ts[i] <= ts[j] <= t {
      MulMono(1, i + 1, r);
      MulMono(i + 1, j + 1, r);
      MulMono(j + 1, n, r);
    }
  }

  /** All tokens at the opening of the interval, then one call at the end of each of `n` periods. */
  function GreedyCalls(c: Bucket, s: int, n: nat): seq<int>
    requires 0 <= c.tokens
  {
    seq(c.tokens, i => s) + Ticks(c.lastRefill, c.refillRate, n)
  }

  lemma GreedyGrants(c: Bucket, s: int, n: nat)
    requires c.Valid() && 0 <= c.tokens && 1 <= c.maxTokens && c.lastRefill <= s && s - c.lastRefill < c.refillRate
    ensures Grants(c, GreedyCalls(c, s, n)) == c.tokens + n
  {
    WithinFirstPeriod(s - c.lastRefill, c.refillRate);
    SpendAll(c, s, c.tokens);
    GrantsSplit(c, seq(c.tokens, i => s), Ticks(c.lastRefill, c.refillRate, n));
    GrantEveryPeriod(c.(tokens := 0), n);
  }

  lemma GreedyWithin(c: Bucket, s: int, t: int, n: nat)
    requires c.Valid() && 0 <= c.tokens && c.lastRefill <= s <= t && s - c.lastRefill < c.refillRate
    requires n * c.refillRate <= t - c.lastRefill
    ensures Within(GreedyCalls(c, s, n), s, t)
  {
    TicksWithin(c.lastRefill, s, t, c.refillRate, n);
    var first, ticks := seq(c.tokens, i => s), Ticks(c.lastRefill, c.refillRate, n);
    var calls := first + ticks;
    assert forall i :: 0 <= i < |calls| ==> calls[i] == if i < c.tokens then s else ticks[i - c.tokens];
  }

  lemma WholePeriods(a: int, r: int) returns (n: nat)
    requires 0 <= a && 0 < r
    ensures n == a / r && n * r <= a
  {
    FloorSum(a, 0, r);
    n := a / r;
  }

  lemma GreedyReachesBound(c: Bucket, s: int, t: int) returns (calls: seq<int>)
    requires c.Valid() && 0 <= c.tokens && 1 <= c.maxTokens && c.lastRefill <= s <= t && s - c.lastRefill < c.refillRate
    ensures Within(calls, s, t) && Grants(c, calls) == c.tokens + (t - c.lastRefill) / c.refillRate
  {
    var n := WholePeriods(t - c.lastRefill, c.refillRate);
    calls := GreedyCalls(c, s, n);
    GreedyGrants(c, s, n);
    GreedyWithin(c, s, t, n);
  }

  lemma WithinFirstPeriod(e: int, r: int)
    requires 0 <= e < r
    ensures Quo(e, r) == 0
  {}

  /**
   * From a bucket at the opening of an interval, some calls in the interval get more than maxTokens plus one per whole
   * period: exactly when there is capacity, the bucket is full, less than a period has passed since its refill, and the
   * boundary that completes that period's remainder falls into the interval.
   */
  lemma PlainBoundFailsIff(c: Bucket, s: int, t: int)
    requires c.Valid() && 0 <= c.tokens && c.lastRefill <= s <= t
    ensures (exists during :: Within(during, s, t) && Grants(c, during) > c.maxTokens + (t - s) / c.refillRate)
              <==> && 1 <= c.maxTokens && c.tokens == c.maxTokens
                   && s - c.lastRefill < c.refillRate
                   && (t - c.lastRefill) / c.refillRate > (t - s) / c.refillRate
  {
    var r := c.refillRate;
    FloorSum(t - s, 0, r);
    if during: seq<int> :| Within(during, s, t) && Grants(c, during) > c.maxTokens + (t - s) / r {
      ExcessNeeds(c, during, s, t);
    }
    if 1 <= c.maxTokens && c.tokens == c.maxTokens && s - c.lastRefill < r && (t - c.lastRefill) / r > (t - s) / r {
      var calls := GreedyReachesBound(c, s, t);
    }
  }

  lemma ExcessNeeds(c: Bucket, during: seq<int>, s: int, t: int)
    requires c.Valid() && 0 <= c.tokens && c.lastRefill <= s <= t
    requires Within(during, s, t) && Grants(c, during) > c.maxTokens + (t - s) / c.refillRate
    ensures 1 <= c.maxTokens && c.tokens == c.maxTokens
    ensures s - c.lastRefill < c.refillRate && (t - c.lastRefill) / c.refillRate > (t - s) / c.refillRate
  {
    var r := c.refillRate;
    FloorSum(t - s, 0, r);
    if c.maxTokens < 1 { NeverGrantsWithoutCapacity(c, during); }
    assert during != [];
    if Quo(during[0] - c.lastRefill, r) > 0 {
      IntervalOpenedByRefill(c, during, s, t);
    } else {
      if during[0] - c.lastRefill >= r { QuotientIsGreatest(during[0] - c.lastRefill, r, 1); }
      GrantsFromState(c, during, t);
      OpenPeriod(c.lastRefill, s, during[0], t, r);
    }
  }

  /** The extra one is real for every capacity and every period of two or more: spend a full bucket just before a boundary. */
  lemma IntervalBoundIsTight(maxTokens: int, rate: int, t0: int) returns (during: seq<int>)
    requires 1 <= maxTokens && 2 <= rate
    ensures var s, t := t0 + rate - 1, t0 + rate;
            Within(during, s, t) && Grants(New(maxTokens, rate, t0), during) == maxTokens + (t - s) / rate + 1
  {
    var b, s, t := New(maxTokens, rate, t0), t0 + rate - 1, t0 + rate;
    during := GreedyReachesBound(b, s, t);
    OnePeriod(rate);
    WithinFirstPeriod(1, rate);
  }

  /** In any interval of any run at most maxTokens plus one per whole period. */
  ghost predicate PlainBound(maxTokens: int, rate: int, t0: int)
    requires 0 < rate
  {
    forall before: seq<int>, during: seq<int>, s: int, t: int |
      s <= t && ClockFrom(before + during, t0) && Within(during, s, t) ::
      Grants(New(maxTokens, rate, t0), before + during) - Grants(New(maxTokens, rate, t0), before) <= Max(maxTokens, 0) + (t - s) / rate
  }

  /** The bound without the extra one holds in all runs exactly without capacity, or with a period of one nanosecond. */
  lemma PlainBoundIff(maxTokens: int, rate: int, t0: int)
    requires 0 < rate
    ensures PlainBound(maxTokens, rate, t0) <==> maxTokens < 1 || rate == 1
  {
    if maxTokens < 1 || rate == 1 {
      forall before: seq<int>, during: seq<int>, s: int, t: int |
        s <= t && ClockFrom(before + during, t0) && Within(during, s, t)
        ensures Grants(New(maxTokens, rate, t0), before + during) - Grants(New(maxTokens, rate, t0), before)
             <= Max(maxTokens, 0) + (t - s) / rate
      {
        PlainBoundHolds(maxTokens, rate, t0, before, during, s, t);
      }
    } else {
      var during := IntervalBoundIsTight(maxTokens, rate, t0);
      assert [] + during == during;
      assert Grants(New(maxTokens, rate, t0), []) == 0;
      assert ClockFrom([] + during, t0);
    }
  }

  lemma PlainBoundHolds(maxTokens: int, rate: int, t0: int, before: seq<int>, during: seq<int>, s: int, t: int)
    requires 0 < rate && (maxTokens < 1 || rate == 1)
    requires s <= t && ClockFrom(before + during, t0) && Within(during, s, t)
    ensures Grants(New(maxTokens, rate, t0), before + during) - Grants(New(maxTokens, rate, t0), before)
         <= Max(maxTokens, 0) + (t - s) / rate
  {
    FloorSum(t - s, 0, rate);
    if maxTokens < 1 {
      NeverGrantsWithoutCapacity(New(maxTokens, rate, t0), before + during);
    } else {
      UnitPeriodHolds(maxTokens, t0, before, during, s, t);
    }
  }

  lemma UnitPeriodHolds(maxTokens: int, t0: int, before: seq<int>, during: seq<int>, s: int, t: int)
    requires 1 <= maxTokens && s <= t && ClockFrom(before + during, t0) && Within(during, s, t)
    ensures Grants(New(maxTokens, 1, t0), before + during) - Grants(New(maxTokens, 1, t0), before) <= maxTokens + (t - s)
  {
    var b := New(maxTokens, 1, t0);
    GrantsSplit(b, before, during);
    if during != [] {
      StateBefore(b, before, during);
      NoRemainder(After(b, before), during, s, t);
    }
  }

  /** With a period of one nanosecond no part of a period can have elapsed. */
  lemma NoRemainder(c: Bucket, during: seq<int>, s: int, t: int)
    requires c.Valid() && c.refillRate == 1 && 1 <= c.maxTokens
    requires during != [] && ClockFrom(during, c.lastRefill) && Within(during, s, t)
    ensures Grants(c, during) <= c.maxTokens + (t - s) / 1
  {
    if Quo(during[0] - c.lastRefill, 1) > 0 {
      IntervalOpenedByRefill(c, during, s, t);
    } else {
      GrantsFromState(c, during, t);
    }
  }

  /** Exactly when a call is granted. */
  lemma GrantedIff(b: Bucket, now: int)
    requires b.Valid() && 0 <= b.tokens && b.lastRefill <= now
    ensures Next(b, now).1 <==> 0 < b.tokens || (1 <= b.maxTokens && b.refillRate <= now - b.lastRefill)
  {
    var e, r := now - b.lastRefill, b.refillRate;
    if r <= e {
      FloorMono(r, e, r);
    }
  }

  /** A bucket built without capacity never grants, so its callers would wait forever. */
  lemma {:induction false} NeverGrantsWithoutCapacity(b: Bucket, times: seq<int>)
    requires b.Valid() && b.maxTokens < 1
    ensures Grants(b, times) == 0
    decreases |times|
  {
    if times == [] {
    } else {
      NeverGrantsWithoutCapacity(Next(b, times[0]).0, times[1..]);
    }
  }

  class RateLimiter {
    var tokens: int
    var lastRefill: int
    const maxTokens: int
    const refillRate: int

    ghost function View(): Bucket
      reads this
    {
      Bucket(tokens, maxTokens, refillRate, lastRefill)
    }

    constructor (maxTokens: int, refillRate: int, now: int)
      ensures View() == New(maxTokens, refillRate, now)
    {
      tokens, this.maxTokens, this.refillRate, lastRefill := maxTokens, maxTokens, refillRate, now;
    }

    method Allow(now: int) returns (ok: bool)
      requires 0 < refillRate
      modifies this`tokens, this`lastRefill
      ensures (View(), ok) == Next(old(View()), now)
    {
      var elapsed := now - lastRefill;
      var tokensToAdd := Quo(elapsed, refillRate);
      if tokensToAdd > 0 {
        tokens := tokens + tokensToAdd;
        if tokens > maxTokens {
          tokens := maxTokens;
        }
        lastRefill := now;
      }
      if tokens > 0 {
        tokens := tokens - 1;
        return true;
      }
      return false;
    }

    /**
     * The wait loop of Send for a lone caller: ask, and sleep 100 ms (plus whatever the scheduler adds) after
     * every refusal. It ends, after at most one refill period of sleeping, because each refusal leaves
     * lastRefill where it was while the clock moves on.
     */
    method WaitForToken(start: int, oversleep: nat -> nat) returns (waits: nat, now: int)
      requires View().Valid() && 0 <= tokens && 1 <= maxTokens && lastRefill <= start
      modifies this`tokens, this`lastRefill
      ensures waits == 0 || ((waits - 1) * 100_000_000 < refillRate && start + waits * 100_000_000 <= now)
      ensures Next(old(View()), now) == (View(), true)
      ensures waits == 0 <==> now == start
      ensures waits == 0 <==> Next(old(View()), start).1
    {
      waits, now := 0, start;
      var ok := Allow(now);
      GrantedIff(old(View()), start);
      while !ok
        invariant View().Valid() && 0 <= tokens < maxTokens && lastRefill <= now
        invariant start + waits * SLEEP <= now
        invariant waits == 0 <==> now == start
        invariant waits == 0 ==> ok == Next(old(View()), start).1
        invariant waits > 0 ==> !Next(old(View()), start).1
        invariant ok ==> Next(old(View()), now) == (View(), true)
        invariant !ok ==> tokens == 0 && now - lastRefill < refillRate && View() == old(View())
        invariant waits > 0 ==> (waits - 1) * SLEEP < refillRate
        decreases !ok, refillRate - (now - lastRefill)
      {
        assert waits * SLEEP <= now - start < refillRate;
        now := now + SLEEP + oversleep(waits);
        waits := waits + 1;
        ghost var b := View();
        GrantedIff(b, now);
        ok := Allow(now);
      }
    }
  }
}
