/**
 * When the two sliding-window limiters agree, and when their combination keeps the limit
 * (backend/internal/api/middleware/rate_limit.go): conditions on the configured limit and window, for all runs.
 */
module LimiterAgreement {
  import opened Common
  import opened RateLimit
  import opened RedisRateLimit

  // --- Requests at consecutive instants ---

  function Instants(from: nat, n: nat): (ts: seq<int>)
    ensures |ts| == n && forall i :: 0 <= i < n ==> ts[i] == from + i
  {
    seq(n, i => from + i)
  }

  function Burst(ip: string, from: nat, n: nat): (ops: seq<Op>)
    ensures |ops| == n && forall i :: 0 <= i < n ==> ops[i] == Request(ip, from + i)
  {
    seq(n, i => Request(ip, from + i))
  }

  lemma BurstStep(ip: string, from: nat, n: nat)
    requires n > 0
    ensures Burst(ip, from, n) == Burst(ip, from, n - 1) + [Request(ip, from + n - 1)]
    ensures Burst(ip, from, n)[..n - 1] == Burst(ip, from, n - 1)
    ensures Instants(from, n) == Instants(from, n - 1) + [from + n - 1]
  {}

  /** The first `limit` requests are accepted by memory, whatever the window. */
  lemma {:induction false} BurstAccepted(ip: string, from: nat, n: nat, l: Limits)
    requires n <= l.limit
    ensures Accepted(Burst(ip, from, n), ip, l) == Instants(from, n)
  {
    if n == 0 {
    } else {
      BurstStep(ip, from, n);
      BurstAccepted(ip, from, n - 1, l);
      FilterSizes(Instants(from, n - 1), t => from + n - 1 - t < l.window, t => true);
    }
  }

  ghost function Range(from: int, n: nat): (s: set<int>)
    ensures |s| == n && forall t :: t in s <==> from <= t < from + n
  {
    if n == 0 then {} else Range(from, n - 1) + {from + n - 1}
  }

  lemma {:induction false} BurstAttempts(ip: string, from: nat, n: nat)
    ensures Attempts(Burst(ip, from, n), ip) == Range(from, n)
  {
    if n == 0 {
    } else {
      BurstStep(ip, from, n);
      BurstAttempts(ip, from, n - 1);
      assert Attempts(Burst(ip, from, n), ip) == Attempts(Burst(ip, from, n - 1), ip) + {from + n - 1};
    }
  }

  lemma BurstOrdered(ip: string, from: nat, n: nat, now: int)
    requires from + n <= now
    ensures Scored(Burst(ip, from, n) + [Request(ip, now)]) && StrictlyOrdered(Burst(ip, from, n) + [Request(ip, now)])
  {}

  lemma {:induction false} FewAttempts(ops: seq<Op>, ip: string)
    ensures |Attempts(ops, ip)| <= |ops|
    decreases |ops|
  {
    if ops == [] {
    } else {
      FewAttempts(ops[..|ops| - 1], ip);
    }
  }

  lemma RedisHasRoom(ops: seq<Op>, ip: string, now: int, l: Limits)
    requires Scored(ops + [Request(ip, now)]) && |ops| < l.limit
    ensures RedisNext(RedisRun(ops, l), ip, now, l).1
  {
    RedisAllowsExactly(ops, ip, now, l);
    FewAttempts(ops, ip);
    SubsetSize(AttemptsInWindow(ops, ip, now, l.window), Attempts(ops, ip));
  }

  /** The first `limit` requests are accepted by Redis. */
  lemma {:induction false} RedisAcceptsFew(ops: seq<Op>, ip: string, l: Limits)
    requires Scored(ops) && |ops| <= l.limit && forall i :: 0 <= i < |ops| ==> ops[i].Request? && ops[i].ip == ip
    ensures |RedisAccepted(ops, ip, l)| == |ops|
    ensures forall i :: 0 <= i < |ops| ==> RedisAccepted(ops, ip, l)[i] == ops[i].now
    decreases |ops|
  {
    if ops == [] {
    } else {
      var before, op := ops[..|ops| - 1], ops[|ops| - 1];
      RedisAcceptsFew(before, ip, l);
      assert ops == before + [Request(ip, op.now)];
      RedisHasRoom(before, ip, op.now, l);
    }
  }

  // --- Does memory accept whatever Redis accepts? ---

  ghost predicate RedisImpliesMemory(l: Limits) {
    forall ops: seq<Op>, ip: string, now: int | Scored(ops + [Request(ip, now)]) ::
      RedisNext(RedisRun(ops, l), ip, now, l).1 ==> AllowNext(Run(ops, l), ip, now, l).1
  }

  lemma {:induction false} AcceptedAreAttempts(ops: seq<Op>, ip: string, l: Limits)
    ensures forall t :: t in Accepted(ops, ip, l) ==> t in Attempts(ops, ip)
    decreases |ops|
  {
    if ops == [] {
    } else {
      AcceptedAreAttempts(ops[..|ops| - 1], ip, l);
    }
  }

  /** If Redis sees no attempt in the window, memory sees no accept. */
  lemma NoAttemptNoAccept(ops: seq<Op>, ip: string, now: int, l: Limits)
    requires AttemptsInWindow(ops, ip, now, l.window) == {}
    ensures Pruned(Accepted(ops, ip, l), now, l.window) == []
  {
    AcceptedAreAttempts(ops, ip, l);
    var accepted := Accepted(ops, ip, l);
    forall i | 0 <= i < |accepted| ensures !(now - accepted[i] < l.window) {
      assert accepted[i] in accepted;
      assert accepted[i] !in AttemptsInWindow(ops, ip, now, l.window);
    }
    FilterNone(accepted, t => now - t < l.window);
  }

  function Repeat(ip: string, at: nat, n: nat): (ops: seq<Op>)
    ensures |ops| == n && forall i :: 0 <= i < n ==> ops[i] == Request(ip, at)
  {
    seq(n, i => Request(ip, at))
  }

  lemma {:induction false} RepeatRun(ip: string, at: nat, n: nat, l: Limits)
    requires n <= l.limit
    ensures Accepted(Repeat(ip, at, n), ip, l) == seq(n, i => at)
  {
    if n == 0 {
    } else {
      assert Repeat(ip, at, n)[..n - 1] == Repeat(ip, at, n - 1);
      RepeatRun(ip, at, n - 1, l);
      FilterSizes(seq(n - 1, i => at), t => at - t < l.window, t => true);
      assert seq(n, i => at) == seq(n - 1, i => at) + [at];
    }
  }

  /** `limit` requests of one instant share one member: Redis accepts one more, memory does not. */
  lemma SameInstantBreaksTheImplication(ip: string, at: nat, l: Limits) returns (ops: seq<Op>)
    requires l.limit >= 2 && l.window > 0
    ensures Scored(ops + [Request(ip, at)])
    ensures RedisNext(RedisRun(ops, l), ip, at, l).1 && !AllowNext(Run(ops, l), ip, at, l).1
  {
    ops := Repeat(ip, at, l.limit);
    RepeatRun(ip, at, l.limit, l);
    RepeatHasRoom(ip, at, l.limit, l);
    AllowsExactly(ops, ip, at, l);
    FilterAll(seq(l.limit, i => at), t => at - t < l.window);
  }

  /**
   * On all traces, equal instants included, memory accepts whatever Redis accepts: exactly for a limit of at most one
   * or an empty window.
   */
  lemma RedisImpliesMemoryIff(l: Limits)
    ensures RedisImpliesMemory(l) <==> l.limit <= 1 || l.window <= 0
  {
    if l.limit <= 1 || l.window <= 0 {
      forall ops: seq<Op>, ip, now |
        Scored(ops + [Request(ip, now)]) && RedisNext(RedisRun(ops, l), ip, now, l).1
        ensures AllowNext(Run(ops, l), ip, now, l).1
      {
        RedisAllowsExactly(ops, ip, now, l);
        AllowsExactly(ops, ip, now, l);
        if l.window <= 0 {
          PrefixOrdered(ops, Request(ip, now));
          AttemptsBounds(ops, ip);
        }
        assert AttemptsInWindow(ops, ip, now, l.window) == {};
        NoAttemptNoAccept(ops, ip, now, l);
      }
    } else {
      var ops := SameInstantBreaksTheImplication("", 0, l);
    }
  }

  // --- Does Redis keep the limit when instants may be equal? ---

  ghost predicate RedisKeepsLimit(l: Limits) {
    forall ops: seq<Op>, ip: string, from: int | Scored(ops) ::
      |InSpan(RedisAccepted(ops, ip, l), from, l.window)| <= Max(l.limit, 0)
  }

  lemma {:induction false} RedisAcceptedAreAttempts(ops: seq<Op>, ip: string, l: Limits)
    ensures forall t :: t in RedisAccepted(ops, ip, l) ==> t in Attempts(ops, ip)
    decreases |ops|
  {
    if ops == [] {
    } else {
      RedisAcceptedAreAttempts(ops[..|ops| - 1], ip, l);
    }
  }

  /** With a limit of at most one, Redis accepts only when nothing at all was attempted in the window. */
  lemma AcceptMeansQuiet(ops: seq<Op>, ip: string, now: int, from: int, l: Limits)
    requires Scored(ops + [Request(ip, now)]) && l.limit <= 1 && from <= now < from + l.window
    requires RedisNext(RedisRun(ops, l), ip, now, l).1
    ensures l.limit == 1 && InSpan(RedisAccepted(ops, ip, l), from, l.window) == []
  {
    RedisAllowsExactly(ops, ip, now, l);
    RedisAcceptedAreAttempts(ops, ip, l);
    var accepted := RedisAccepted(ops, ip, l);
    assert AttemptsInWindow(ops, ip, now, l.window) == {};
    forall i | 0 <= i < |accepted| ensures !(from <= accepted[i] < from + l.window) {
      assert accepted[i] in accepted;
      assert accepted[i] !in AttemptsInWindow(ops, ip, now, l.window);
    }
    FilterNone(accepted, t => from <= t < from + l.window);
  }

  lemma {:induction false} RedisKeepsSmallLimit(ops: seq<Op>, ip: string, from: int, l: Limits)
    requires Scored(ops) && l.limit <= 1
    ensures |InSpan(RedisAccepted(ops, ip, l), from, l.window)| <= Max(l.limit, 0)
    decreases |ops|
  {
    if ops == [] {
    } else {
      var before, op := ops[..|ops| - 1], ops[|ops| - 1];
      RedisKeepsSmallLimit(before, ip, from, l);
      InSpanAppend(RedisAccepted(before, ip, l), op.now, from, l.window);
      if RedisAccepted(ops, ip, l) != RedisAccepted(before, ip, l) && from <= op.now < from + l.window {
        assert ops == before + [Request(ip, op.now)];
        AcceptMeansQuiet(before, ip, op.now, from, l);
      }
    }
  }

  lemma RepeatHasRoom(ip: string, at: nat, n: nat, l: Limits)
    requires l.limit >= 2
    ensures RedisNext(RedisRun(Repeat(ip, at, n), l), ip, at, l).1
  {
    RedisAllowsExactly(Repeat(ip, at, n), ip, at, l);
    RepeatAttempts(ip, at, n);
    SubsetSize(AttemptsInWindow(Repeat(ip, at, n), ip, at, l.window), {at});
  }

  lemma {:induction false} RepeatAttempts(ip: string, at: nat, n: nat)
    ensures Attempts(Repeat(ip, at, n), ip) <= {at}
  {
    if n == 0 {
    } else {
      assert Repeat(ip, at, n)[..n - 1] == Repeat(ip, at, n - 1);
      RepeatAttempts(ip, at, n - 1);
    }
  }

  lemma {:induction false} RepeatAllAccepted(ip: string, at: nat, n: nat, l: Limits)
    requires l.limit >= 2
    ensures |RedisAccepted(Repeat(ip, at, n), ip, l)| == n
    ensures forall i :: 0 <= i < n ==> RedisAccepted(Repeat(ip, at, n), ip, l)[i] == at
  {
    if n == 0 {
    } else {
      assert Repeat(ip, at, n)[..n - 1] == Repeat(ip, at, n - 1);
      RepeatAllAccepted(ip, at, n - 1, l);
      RepeatHasRoom(ip, at, n - 1, l);
    }
  }

  /** Requests of one instant are accepted without end. */
  lemma SameInstantOverflows(ip: string, n: nat, l: Limits)
    requires l.limit >= 2 && l.window > 0
    ensures Scored(Repeat(ip, 0, n)) && |InSpan(RedisAccepted(Repeat(ip, 0, n), ip, l), 0, l.window)| == n
  {
    RepeatAllAccepted(ip, 0, n, l);
    FilterAll(RedisAccepted(Repeat(ip, 0, n), ip, l), t => 0 <= t < 0 + l.window);
  }

  /** Redis keeps its limit on all traces, equal instants included, exactly for a limit of at most one or an empty window. */
  lemma RedisKeepsLimitIff(l: Limits)
    ensures RedisKeepsLimit(l) <==> l.limit <= 1 || l.window <= 0
  {
    if l.limit <= 1 || l.window <= 0 {
      forall ops: seq<Op>, ip: string, from: int | Scored(ops)
        ensures |InSpan(RedisAccepted(ops, ip, l), from, l.window)| <= Max(l.limit, 0)
      {
        if l.limit <= 1 {
          RedisKeepsSmallLimit(ops, ip, from, l);
        } else {
          FilterNone(RedisAccepted(ops, ip, l), t => from <= t < from + l.window);
        }
      }
    } else {
      SameInstantOverflows("", l.limit + 1, l);
    }
  }

  // --- Does Redis accept whatever memory accepts? ---

  /** At strictly increasing instants. */
  ghost predicate MemoryImpliesRedis(l: Limits) {
    forall ops: seq<Op>, ip: string, now: int | Scored(ops + [Request(ip, now)]) && StrictlyOrdered(ops + [Request(ip, now)]) ::
      AllowNext(Run(ops, l), ip, now, l).1 ==> RedisNext(RedisRun(ops, l), ip, now, l).1
  }

  lemma StrictPrefix(ops: seq<Op>, op: Op)
    requires StrictlyOrdered(ops + [op])
    ensures StrictlyOrdered(ops) && (ops != [] ==> ops[|ops| - 1].now < op.now)
  {
    var all := ops + [op];
    assert forall i :: 0 <= i < |ops| ==> ops[i] == all[i];
    assert ops != [] ==> all[|ops| - 1].now < all[|ops|].now;
  }

  /** A window that holds fewer instants than the limit can never be full. */
  lemma ShortWindowHasRoom(ops: seq<Op>, ip: string, now: int, l: Limits)
    requires Scored(ops + [Request(ip, now)]) && StrictlyOrdered(ops + [Request(ip, now)])
    requires 0 < l.limit && l.window <= l.limit
    ensures |AttemptsInWindow(ops, ip, now, l.window)| < l.limit
  {
    PrefixOrdered(ops, Request(ip, now));
    StrictPrefix(ops, Request(ip, now));
    AttemptsBounds(ops, ip);
    SubsetSize(AttemptsInWindow(ops, ip, now, l.window), Range(now - l.window + 1, Max(l.window - 1, 0)));
  }

  /** A refused attempt still counts for Redis: one window later memory has room again and Redis has not. */
  lemma MemoryAcceptsWhatRedisRefuses(ip: string, l: Limits) returns (ops: seq<Op>)
    requires 1 <= l.limit < l.window
    ensures Scored(ops + [Request(ip, l.window)]) && StrictlyOrdered(ops + [Request(ip, l.window)])
    ensures AllowNext(Run(ops, l), ip, l.window, l).1 && !RedisNext(RedisRun(ops, l), ip, l.window, l).1
  {
    ops := Burst(ip, 0, l.limit + 1);
    BurstOrdered(ip, 0, l.limit + 1, l.window);
    LastOfBurstRefused(ip, l);
    AllowsExactly(ops, ip, l.window, l);
    OldestIsOut(Instants(0, l.limit), l.window);
    RedisAllowsExactly(ops, ip, l.window, l);
    BurstAttempts(ip, 0, l.limit + 1);
    SubsetSize(Range(1, l.limit), AttemptsInWindow(ops, ip, l.window, l.window));
  }

  lemma LastOfBurstRefused(ip: string, l: Limits)
    requires 1 <= l.limit < l.window
    ensures Accepted(Burst(ip, 0, l.limit + 1), ip, l) == Instants(0, l.limit)
  {
    BurstStep(ip, 0, l.limit + 1);
    BurstAccepted(ip, 0, l.limit, l);
    FilterAll(Instants(0, l.limit), t => l.limit - t < l.window);
  }

  lemma OldestIsOut(ts: seq<int>, now: int)
    requires ts != [] && ts[0] == 0
    ensures |Pruned(ts, now, now)| < |ts|
  {
    FilterSizes(ts[1..], t => now - t < now, t => true);
  }

  /** Redis accepts whatever memory accepts exactly when the limit is never what refuses: none at all, or a window too short. */
  lemma MemoryImpliesRedisIff(l: Limits)
    ensures MemoryImpliesRedis(l) <==> l.limit <= 0 || l.window <= l.limit
  {
    if l.limit <= 0 || l.window <= l.limit {
      forall ops: seq<Op>, ip, now |
        Scored(ops + [Request(ip, now)]) && StrictlyOrdered(ops + [Request(ip, now)]) && AllowNext(Run(ops, l), ip, now, l).1
        ensures RedisNext(RedisRun(ops, l), ip, now, l).1
      {
        RedisAllowsExactly(ops, ip, now, l);
        AllowsExactly(ops, ip, now, l);
        ShortWindowHasRoom(ops, ip, now, l);
      }
    } else {
      var ops := MemoryAcceptsWhatRedisRefuses("", l);
    }
  }

  /** Memory has refused no request of this ip so far. */
  ghost predicate NothingRefused(ops: seq<Op>, ip: string, l: Limits)
    decreases |ops|
  {
    ops == [] ||
    var before, op := ops[..|ops| - 1], ops[|ops| - 1];
    NothingRefused(before, ip, l) && (op.Request? && op.ip == ip ==> AllowNext(Run(before, l), ip, op.now, l).1)
  }

  lemma {:induction false} AttemptsAreAccepts(ops: seq<Op>, ip: string, l: Limits)
    requires StrictlyOrdered(ops) && NothingRefused(ops, ip, l)
    ensures forall t :: t in Attempts(ops, ip) <==> t in Accepted(ops, ip, l)
    decreases |ops|
  {
    if ops == [] {
    } else {
      var before, op := ops[..|ops| - 1], ops[|ops| - 1];
      AttemptsAreAccepts(before, ip, l);
      if op.Request? && op.ip == ip {
        assert ops == before + [Request(ip, op.now)];
        AllowsExactly(before, ip, op.now, l);
      }
    }
  }

  lemma {:induction false} AscendingAsSet(ts: seq<int>, s: set<int>)
    requires Ascending(ts) && forall t :: t in ts <==> t in s
    ensures |ts| == |s|
    decreases |ts|
  {
    if ts == [] {
      forall t ensures t !in s { assert t in s <==> t in ts; }
    } else {
      assert ts[0] in ts;
      assert forall i :: 0 < i < |ts| ==> ts[i] == ts[1..][i - 1];
      AscendingAsSet(ts[1..], s - {ts[0]});
    }
  }

  /** As long as memory has refused nothing of an ip, both limiters answer its next request alike. */
  lemma AlikeUntilRefusal(ops: seq<Op>, ip: string, now: int, l: Limits)
    requires Scored(ops + [Request(ip, now)]) && StrictlyOrdered(ops + [Request(ip, now)]) && NothingRefused(ops, ip, l)
    ensures RedisNext(RedisRun(ops, l), ip, now, l).1 <==> AllowNext(Run(ops, l), ip, now, l).1
  {
    RedisAllowsExactly(ops, ip, now, l);
    AllowsExactly(ops, ip, now, l);
    StrictPrefix(ops, Request(ip, now));
    AttemptsAreAccepts(ops, ip, l);
    AcceptedWithinAttempts(ops, ip, l);
    FilterAscending(Accepted(ops, ip, l), t => now - t < l.window);
    AscendingAsSet(Pruned(Accepted(ops, ip, l), now, l.window), AttemptsInWindow(ops, ip, now, l.window));
  }

  // --- When a full window opens again ---

  /** After as many requests at one instant as the limit, memory accepts the next exactly from one window later on. */
  lemma MemoryReopens(ip: string, at: nat, now: int, l: Limits)
    requires 1 <= l.limit && at <= now
    ensures AllowNext(Run(Repeat(ip, at, l.limit), l), ip, now, l).1 <==> now - at >= l.window
  {
    RepeatRun(ip, at, l.limit, l);
    AllowsExactly(Repeat(ip, at, l.limit), ip, now, l);
    var accepts := seq(l.limit, i => at);
    if now - at < l.window {
      FilterAll(accepts, t => now - t < l.window);
    } else {
      FilterNone(accepts, t => now - t < l.window);
    }
  }

  /** After as many requests at consecutive instants as the limit, Redis accepts the next exactly one window after the first. */
  lemma RedisReopens(ip: string, at: nat, now: int, l: Limits)
    requires 1 <= l.limit && at + l.limit <= now
    ensures RedisNext(RedisRun(Burst(ip, at, l.limit), l), ip, now, l).1 <==> now - at >= l.window
  {
    BurstOrdered(ip, at, l.limit, now);
    RedisAllowsExactly(Burst(ip, at, l.limit), ip, now, l);
    BurstAttempts(ip, at, l.limit);
    var inWindow := AttemptsInWindow(Burst(ip, at, l.limit), ip, now, l.window);
    if now - at < l.window {
      assert inWindow == Range(at, l.limit);
    } else {
      SubsetSize(inWindow, Range(at, l.limit) - {at as int});
    }
  }

  /** The key of an ip lives on for exactly one window after its last request. */
  lemma KeyExpires(m: Redis, ip: string, at: int, now: int, l: Limits)
    requires at <= now
    ensures Live(RedisNext(m, ip, at, l).0, ip, now) != {} <==> now < at + l.window
  {
    assert at in RedisNext(m, ip, at, l).0[ip].members;
  }

  // --- What the combination keeps ---

  /** The most that one window can hold: twice the limit, and no more than its instants. */
  function FallbackBound(l: Limits): nat {
    Min(2 * Max(l.limit, 0), Max(l.window, 0))
  }

  lemma {:induction false} CombinedAcceptsAscend(es: seq<Event>, ip: string, l: Limits)
    requires StrictEvents(es)
    ensures Ascending(CombinedRun(es, ip, l).1)
    ensures forall t :: t in CombinedRun(es, ip, l).1 ==> t <= es[|es| - 1].Time()
    decreases |es|
  {
    if es == [] {
    } else {
      var before, e := es[..|es| - 1], es[|es| - 1];
      CombinedAcceptsAscend(before, ip, l);
      assert before != [] ==> before[|before| - 1].Time() < e.Time();
      AscendingAppend(CombinedRun(before, ip, l).1, e.Time());
    }
  }

  lemma AscendingFits(ts: seq<int>, from: int, window: int)
    requires Ascending(ts)
    ensures |InSpan(ts, from, window)| <= Max(window, 0)
  {
    FilterAscending(ts, t => from <= t < from + window);
    AscendingInSet(InSpan(ts, from, window), Range(from, Max(window, 0)));
  }

  /** However Redis fails and recovers. */
  lemma FallbackKeepsBound(es: seq<Event>, ip: string, from: int, l: Limits)
    requires StrictEvents(es)
    ensures |InSpan(CombinedRun(es, ip, l).1, from, l.window)| <= FallbackBound(l)
  {
    FallbackKeepsTwiceTheLimit(es, ip, from, l);
    CombinedAcceptsAscend(es, ip, l);
    AscendingFits(CombinedRun(es, ip, l).1, from, l.window);
  }

  /** `k` requests through Redis, then `m` through memory, at consecutive instants. */
  function TwoBursts(ip: string, k: nat, m: nat): (es: seq<Event>)
    ensures |es| == k + m
    ensures forall i :: 0 <= i < k + m ==> es[i] == if i < k then ViaRedis(ip, i) else ViaMemory(Request(ip, i))
  {
    seq(k + m, i => if i < k then ViaRedis(ip, i) else ViaMemory(Request(ip, i)))
  }

  lemma {:induction false} TwoBurstsSides(ip: string, k: nat, m: nat)
    ensures RedisSide(TwoBursts(ip, k, m)) == Burst(ip, 0, k)
    ensures MemorySide(TwoBursts(ip, k, m)) == Burst(ip, k, m)
    decreases k + m
  {
    var es := TwoBursts(ip, k, m);
    if m > 0 {
      assert es[..k + m - 1] == TwoBursts(ip, k, m - 1);
      TwoBurstsSides(ip, k, m - 1);
      BurstStep(ip, k, m);
    } else if k > 0 {
      assert es[..k - 1] == TwoBursts(ip, k - 1, 0);
      TwoBurstsSides(ip, k - 1, 0);
      BurstStep(ip, 0, k);
    }
  }

  lemma RedisBurstCounts(ip: string, k: nat, l: Limits)
    requires k <= l.limit && k <= l.window
    ensures |InSpan(RedisAccepted(Burst(ip, 0, k), ip, l), 0, l.window)| == k
  {
    RedisAcceptsFew(Burst(ip, 0, k), ip, l);
    FilterAll(RedisAccepted(Burst(ip, 0, k), ip, l), t => 0 <= t < 0 + l.window);
  }

  lemma MemoryBurstCounts(ip: string, k: nat, m: nat, l: Limits)
    requires m <= l.limit && k + m <= l.window
    ensures |InSpan(Accepted(Burst(ip, k, m), ip, l), 0, l.window)| == m
  {
    BurstAccepted(ip, k, m, l);
    FilterAll(Instants(k, m), t => 0 <= t < 0 + l.window);
  }

  lemma TwoBurstsAccepted(ip: string, k: nat, m: nat, l: Limits)
    requires k <= l.limit && m <= l.limit && k + m <= l.window
    ensures StrictEvents(TwoBursts(ip, k, m))
    ensures |InSpan(CombinedRun(TwoBursts(ip, k, m), ip, l).1, 0, l.window)| == k + m
  {
    assert StrictEvents(TwoBursts(ip, k, m));
    TwoBurstsSides(ip, k, m);
    CombinedAcceptsSplit(TwoBursts(ip, k, m), ip, 0, l);
    RedisBurstCounts(ip, k, l);
    MemoryBurstCounts(ip, k, m, l);
  }

  /** The bound is reached for every limit and window: the two limiters do not see each other's accepts. */
  lemma FallbackReachesBound(ip: string, l: Limits) returns (es: seq<Event>)
    ensures StrictEvents(es) && |InSpan(CombinedRun(es, ip, l).1, 0, l.window)| == FallbackBound(l)
  {
    var n := FallbackBound(l);
    var k: nat := Min(n, Max(l.limit, 0));
    es := TwoBursts(ip, k, n - k);
    if n == 0 {
      assert es == [];
    } else {
      TwoBurstsAccepted(ip, k, n - k, l);
    }
  }

  ghost predicate FallbackKeepsLimit(l: Limits) {
    forall es: seq<Event>, ip: string, from: int ::
      StrictEvents(es) ==> |InSpan(CombinedRun(es, ip, l).1, from, l.window)| <= Max(l.limit, 0)
  }

  /** With fallback the limit is kept in every run exactly when no window has more instants than the limit. */
  lemma FallbackKeepsLimitIff(l: Limits)
    ensures FallbackKeepsLimit(l) <==> l.limit <= 0 || l.window <= l.limit
  {
    if l.limit <= 0 || l.window <= l.limit {
      forall es: seq<Event>, ip: string, from: int | StrictEvents(es)
        ensures |InSpan(CombinedRun(es, ip, l).1, from, l.window)| <= Max(l.limit, 0)
      {
        FallbackKeepsBound(es, ip, from, l);
      }
    } else {
      var es := FallbackReachesBound("", l);
    }
  }

  /** In any run, a span in which one of the two limiters accepts nothing keeps the limit. */
  lemma OneSidedSpanKeepsLimit(es: seq<Event>, ip: string, from: int, l: Limits)
    requires StrictEvents(es)
    requires InSpan(RedisAccepted(RedisSide(es), ip, l), from, l.window) == []
          || InSpan(Accepted(MemorySide(es), ip, l), from, l.window) == []
    ensures |InSpan(CombinedRun(es, ip, l).1, from, l.window)| <= Max(l.limit, 0)
  {
    CombinedAcceptsSplit(es, ip, from, l);
    SidesAreOrdered(es);
    NoRedisWindowOverflows(RedisSide(es), ip, from, l);
    NoWindowOverflows(MemorySide(es), ip, from, l);
  }
}
