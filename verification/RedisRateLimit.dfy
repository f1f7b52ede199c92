/**
 * The Redis-backed sliding-window limiter (backend/internal/api/middleware/rate_limit.go), its relation to the
 * in-memory one, and the combination that falls back to memory whenever the Redis pipeline fails.
 */
module RedisRateLimit {
  import opened Common
  import opened RateLimit

  // --- The Redis limiter ---

  /** A sorted set whose members are the instants themselves, and the instant at which Redis drops the whole key. */
  datatype SortedSet = SortedSet(members: set<int>, expiresAt: int)

  type Redis = map<string, SortedSet>

  function Live(m: Redis, ip: string, now: int): set<int> {
    if ip in m && now < m[ip].expiresAt then m[ip].members else {}
  }

  /** ZREMRANGEBYSCORE key 0 (now - window): both ends of the removed range belong to it. */
  function Trimmed(members: set<int>, now: int, window: int): set<int> {
    set t | t in members && !(0 <= t <= now - window)
  }

  /** The pipeline: trim, count, add this instant whatever the count, renew the expiry; then compare the count. */
  function RedisNext(m: Redis, ip: string, now: int, l: Limits): (Redis, bool) {
    var kept := Trimmed(Live(m, ip, now), now, l.window);
    (m[ip := SortedSet(kept + {now}, now + l.window)], |kept| < l.limit)
  }

  ghost function RedisRun(ops: seq<Op>, l: Limits): Redis
    decreases |ops|
  {
    if ops == [] then map[] else
      var before, op := RedisRun(ops[..|ops| - 1], l), ops[|ops| - 1];
      if op.Request? then RedisNext(before, op.ip, op.now, l).0 else before
  }

  /** The distinct instants of all requests of `ip`, accepted or not. */
  ghost function Attempts(ops: seq<Op>, ip: string): set<int>
    decreases |ops|
  {
    if ops == [] then {} else
      var op := ops[|ops| - 1];
      Attempts(ops[..|ops| - 1], ip) + (if op.Request? && op.ip == ip then {op.now} else {})
  }

  ghost function AttemptsInWindow(ops: seq<Op>, ip: string, now: int, window: int): set<int> {
    set t | t in Attempts(ops, ip) && now - t < window
  }

  /** Requests at instants that Redis can score: since 1970, and in order. */
  ghost predicate Scored(ops: seq<Op>) {
    Ordered(ops) && forall i :: 0 <= i < |ops| ==> 0 <= ops[i].now
  }

  lemma {:induction false} AttemptsBounds(ops: seq<Op>, ip: string)
    requires Scored(ops)
    ensures forall t :: t in Attempts(ops, ip) ==> 0 <= t <= ops[|ops| - 1].now
    decreases |ops|
  {
    if ops == [] {
    } else {
      AttemptsBounds(ops[..|ops| - 1], ip);
    }
  }

  lemma TrimAfterAdd(attempts: set<int>, kept: set<int>, at: int, now: int, window: int)
    requires 0 <= at <= now && forall t :: t in attempts ==> 0 <= t <= at
    requires kept == set t | t in attempts && at - t < window
    ensures Trimmed(if now < at + window then kept + {at} else {}, now, window)
         == (set t | t in attempts + {at} && now - t < window)
  {}

  /** Trimming and key expiry never lose an attempt that a window still covers. */
  lemma {:induction false} SetAgreesWithAttempts(ops: seq<Op>, ip: string, now: int, l: Limits)
    requires Scored(ops) && (ops != [] ==> ops[|ops| - 1].now <= now)
    ensures Trimmed(Live(RedisRun(ops, l), ip, now), now, l.window) == AttemptsInWindow(ops, ip, now, l.window)
    decreases |ops|
  {
    if ops == [] {
    } else {
      var before, op := ops[..|ops| - 1], ops[|ops| - 1];
      AttemptsBounds(ops, ip);
      AttemptsBounds(before, ip);
      if op.Request? && op.ip == ip {
        SetAgreesWithAttempts(before, ip, op.now, l);
        TrimAfterAdd(Attempts(before, ip), AttemptsInWindow(before, ip, op.now, l.window), op.now, now, l.window);
      } else {
        SetAgreesWithAttempts(before, ip, now, l);
      }
    }
  }

  /** Redis allows a request exactly when fewer than `limit` distinct attempts lie in the window, refused ones included. */
  lemma RedisAllowsExactly(ops: seq<Op>, ip: string, now: int, l: Limits)
    requires Scored(ops + [Request(ip, now)])
    ensures RedisNext(RedisRun(ops, l), ip, now, l).1 <==> |AttemptsInWindow(ops, ip, now, l.window)| < l.limit
  {
    PrefixOrdered(ops, Request(ip, now));
    SetAgreesWithAttempts(ops, ip, now, l);
  }

  lemma PrefixOrdered(ops: seq<Op>, op: Op)
    requires Scored(ops + [op])
    ensures Scored(ops) && (ops != [] ==> ops[|ops| - 1].now <= op.now)
  {
    var all := ops + [op];
    assert forall i :: 0 <= i < |ops| ==> ops[i] == all[i];
    assert ops != [] ==> all[|ops| - 1].now <= all[|ops|].now;
  }

  // --- Redis against memory ---

  ghost predicate StrictlyOrdered(ops: seq<Op>) {
    forall i, j :: 0 <= i < j < |ops| ==> ops[i].now < ops[j].now
  }

  ghost predicate Ascending(ts: seq<int>) {
    forall i, j :: 0 <= i < j < |ts| ==> ts[i] < ts[j]
  }

  lemma AscendingCons(t: int, ts: seq<int>)
    requires Ascending(ts) && forall x :: x in ts ==> t < x
    ensures Ascending([t] + ts)
  {
    assert forall i :: 0 <= i < |ts| ==> ts[i] in ts;
  }

  lemma {:induction false} FilterAscending(ts: seq<int>, p: int -> bool)
    requires Ascending(ts)
    ensures Ascending(Filter(ts, p))
    ensures forall t :: t in Filter(ts, p) <==> t in ts && p(t)
    decreases |ts|
  {
    if ts == [] {
    } else {
      FilterAscending(ts[1..], p);
      forall t ensures t in Filter(ts[1..], p) <==> t in ts[1..] && p(t) { FilterMembers(ts[1..], p, t); }
      forall t ensures t in Filter(ts, p) <==> t in ts && p(t) { FilterMembers(ts, p, t); }
      AscendingCons(ts[0], Filter(ts[1..], p));
    }
  }

  lemma {:induction false} AscendingInSet(ts: seq<int>, s: set<int>)
    requires Ascending(ts) && forall t :: t in ts ==> t in s
    ensures |ts| <= |s|
    decreases |ts|
  {
    if ts == [] {
    } else {
      assert forall t :: t in ts[1..] ==> ts[0] < t && t in ts;
      AscendingInSet(ts[1..], s - {ts[0]});
      assert ts[0] in s;
    }
  }

  lemma AscendingAppend(ts: seq<int>, t: int)
    requires Ascending(ts) && forall x :: x in ts ==> x < t
    ensures Ascending(ts + [t])
  {
    assert forall i :: 0 <= i < |ts| ==> ts[i] in ts;
  }

  /** Every accepted instant is an attempted one, and no two are equal. */
  lemma {:induction false} AcceptedWithinAttempts(ops: seq<Op>, ip: string, l: Limits)
    requires StrictlyOrdered(ops)
    ensures Ascending(Accepted(ops, ip, l))
    ensures forall t :: t in Accepted(ops, ip, l) ==> t in Attempts(ops, ip) && t <= ops[|ops| - 1].now
    decreases |ops|
  {
    if ops == [] {
    } else {
      var before, op := ops[..|ops| - 1], ops[|ops| - 1];
      AcceptedWithinAttempts(before, ip, l);
      assert before != [] ==> before[|before| - 1].now < op.now;
      assert forall x :: x in Accepted(before, ip, l) ==> x < op.now;
      AscendingAppend(Accepted(before, ip, l), op.now);
    }
  }

  /**
   * On one trace of requests at strictly increasing instants, whatever the Redis limiter accepts the in-memory one
   * accepts too: the accepts that memory counts are among the attempts that Redis counts.
   */
  lemma RedisAcceptsImplyMemoryAccepts(ops: seq<Op>, ip: string, now: int, l: Limits)
    requires Scored(ops + [Request(ip, now)]) && StrictlyOrdered(ops + [Request(ip, now)])
    requires RedisNext(RedisRun(ops, l), ip, now, l).1
    ensures AllowNext(Run(ops, l), ip, now, l).1
  {
    RedisAllowsExactly(ops, ip, now, l);
    AllowsExactly(ops, ip, now, l);
    assert StrictlyOrdered(ops) by {
      assert forall i :: 0 <= i < |ops| ==> ops[i] == (ops + [Request(ip, now)])[i];
    }
    AcceptedWithinAttempts(ops, ip, l);
    FilterAscending(Accepted(ops, ip, l), t => now - t < l.window);
    AscendingInSet(Pruned(Accepted(ops, ip, l), now, l.window), AttemptsInWindow(ops, ip, now, l.window));
  }

  // --- Falling back ---

  /** A request whose pipeline succeeded, or anything that happens to the in-memory limiter because it did not. */
  datatype Event = ViaRedis(ip: string, at: int) | ViaMemory(op: Op) {
    function Time(): int {
      if ViaRedis? then at else op.now
    }
  }

  function RedisSide(es: seq<Event>): seq<Op>
    decreases |es|
  {
    if es == [] then [] else
      var before, e := RedisSide(es[..|es| - 1]), es[|es| - 1];
      if e.ViaRedis? then before + [Request(e.ip, e.at)] else before
  }

  function MemorySide(es: seq<Event>): seq<Op>
    decreases |es|
  {
    if es == [] then [] else
      var before, e := MemorySide(es[..|es| - 1]), es[|es| - 1];
      if e.ViaMemory? then before + [e.op] else before
  }

  datatype Combined = Combined(redis: Redis, memory: Requests)

  function CombinedNext(c: Combined, ip: string, now: int, up: bool, l: Limits): (Combined, bool) {
    if up then
      var (redis, ok) := RedisNext(c.redis, ip, now, l);
      (c.(redis := redis), ok)
    else
      var (memory, ok) := AllowNext(c.memory, ip, now, l);
      (c.(memory := memory), ok)
  }

  /** The state after a run, and the instants at which it accepted a request of `ip`. */
  ghost function CombinedRun(es: seq<Event>, ip: string, l: Limits): (Combined, seq<int>)
    decreases |es|
  {
    if es == [] then (Combined(map[], map[]), []) else
      var (c, accepted) := CombinedRun(es[..|es| - 1], ip, l);
      match es[|es| - 1]
      case ViaRedis(from, now) =>
        var (c', ok) := CombinedNext(c, from, now, true, l);
        (c', if ok && from == ip then accepted + [now] else accepted)
      case ViaMemory(Request(from, now)) =>
        var (c', ok) := CombinedNext(c, from, now, false, l);
        (c', if ok && from == ip then accepted + [now] else accepted)
      case ViaMemory(Cleanup(now)) => (c.(memory := CleanupNext(c.memory, now, l)), accepted)
  }

  ghost function RedisAccepted(ops: seq<Op>, ip: string, l: Limits): seq<int>
    decreases |ops|
  {
    if ops == [] then [] else
      var before, op := ops[..|ops| - 1], ops[|ops| - 1];
      var earlier := RedisAccepted(before, ip, l);
      if op.Request? && op.ip == ip && RedisNext(RedisRun(before, l), ip, op.now, l).1 then earlier + [op.now]
      else earlier
  }

  lemma {:induction false} RedisAcceptedWithinAttempts(ops: seq<Op>, ip: string, l: Limits)
    requires StrictlyOrdered(ops)
    ensures Ascending(RedisAccepted(ops, ip, l))
    ensures forall t :: t in RedisAccepted(ops, ip, l) ==> t in Attempts(ops, ip) && t <= ops[|ops| - 1].now
    decreases |ops|
  {
    if ops == [] {
    } else {
      var before, op := ops[..|ops| - 1], ops[|ops| - 1];
      RedisAcceptedWithinAttempts(before, ip, l);
      assert before != [] ==> before[|before| - 1].now < op.now;
      assert forall x :: x in RedisAccepted(before, ip, l) ==> x < op.now;
      AscendingAppend(RedisAccepted(before, ip, l), op.now);
    }
  }

  /** With distinct instants Redis alone keeps the limit too. */
  lemma {:induction false} NoRedisWindowOverflows(ops: seq<Op>, ip: string, from: int, l: Limits)
    requires Scored(ops) && StrictlyOrdered(ops)
    ensures |InSpan(RedisAccepted(ops, ip, l), from, l.window)| <= Max(l.limit, 0)
    decreases |ops|
  {
    if ops == [] {
    } else {
      var before, op := ops[..|ops| - 1], ops[|ops| - 1];
      NoRedisWindowOverflows(before, ip, from, l);
      var earlier := RedisAccepted(before, ip, l);
      InSpanAppend(earlier, op.now, from, l.window);
      if RedisAccepted(ops, ip, l) != earlier && from <= op.now < from + l.window {
        assert ops == before + [op];
        RedisAcceptsWithRoom(before, op, from, l);
      }
    }
  }

  /** A request is accepted only while every span that covers it still has room. */
  lemma RedisAcceptsWithRoom(ops: seq<Op>, op: Op, from: int, l: Limits)
    requires op.Request? && Scored(ops + [op]) && StrictlyOrdered(ops)
    requires RedisNext(RedisRun(ops, l), op.ip, op.now, l).1 && from <= op.now < from + l.window
    ensures |InSpan(RedisAccepted(ops, op.ip, l), from, l.window)| < l.limit
  {
    RedisAllowsExactly(ops, op.ip, op.now, l);
    RedisAcceptedWithinAttempts(ops, op.ip, l);
    var accepted := RedisAccepted(ops, op.ip, l);
    FilterAscending(accepted, t => from <= t < from + l.window);
    AscendingInSet(InSpan(accepted, from, l.window), AttemptsInWindow(ops, op.ip, op.now, l.window));
  }

  lemma InSpanAppend(ts: seq<int>, t: int, from: int, window: int)
    ensures |InSpan(ts + [t], from, window)| == |InSpan(ts, from, window)| + (if from <= t < from + window then 1 else 0)
  {
    FilterAppend(ts, [t], t => from <= t < from + window);
    assert [t][1..] == [];
  }

  ghost predicate StrictEvents(es: seq<Event>) {
    && (forall i, j :: 0 <= i < j < |es| ==> es[i].Time() < es[j].Time())
    && (forall i :: 0 <= i < |es| ==> 0 <= es[i].Time())
  }

  lemma OrderedAppend(ops: seq<Op>, op: Op)
    requires Scored(ops) && StrictlyOrdered(ops) && 0 <= op.now
    requires forall o :: o in ops ==> o.now < op.now
    ensures Scored(ops + [op]) && StrictlyOrdered(ops + [op])
  {
    assert forall i :: 0 <= i < |ops| ==> ops[i] in ops;
  }

  /** Each side of a run is a run of its own limiter. */
  lemma {:induction false} SidesAreOrdered(es: seq<Event>)
    requires StrictEvents(es)
    ensures Scored(RedisSide(es)) && StrictlyOrdered(RedisSide(es))
    ensures Scored(MemorySide(es)) && StrictlyOrdered(MemorySide(es))
    ensures forall o :: o in RedisSide(es) || o in MemorySide(es) ==> o.now <= es[|es| - 1].Time()
    decreases |es|
  {
    if es == [] {
    } else {
      var before, e := es[..|es| - 1], es[|es| - 1];
      SidesAreOrdered(before);
      assert before != [] ==> before[|before| - 1].Time() < e.Time();
      match e
      case ViaRedis(ip, now) => OrderedAppend(RedisSide(before), Request(ip, now));
      case ViaMemory(op) => OrderedAppend(MemorySide(before), op);
    }
  }

  lemma RunsAppend(ops: seq<Op>, op: Op, ip: string, l: Limits)
    ensures Run(ops + [op], l) == Step(Run(ops, l), op, l)
    ensures RedisRun(ops + [op], l)
         == if op.Request? then RedisNext(RedisRun(ops, l), op.ip, op.now, l).0 else RedisRun(ops, l)
    ensures Accepted(ops + [op], ip, l)
         == if op.Request? && op.ip == ip && FewerThanLimit(Accepted(ops, ip, l), op.now, l)
            then Accepted(ops, ip, l) + [op.now] else Accepted(ops, ip, l)
    ensures RedisAccepted(ops + [op], ip, l)
         == if op.Request? && op.ip == ip && RedisNext(RedisRun(ops, l), ip, op.now, l).1
            then RedisAccepted(ops, ip, l) + [op.now] else RedisAccepted(ops, ip, l)
  {
    assert (ops + [op])[..|ops + [op]| - 1] == ops;
  }

  /** The combined state is always the pair of the two separate states. */
  lemma {:induction false} CombinedStateSplits(es: seq<Event>, ip: string, l: Limits)
    ensures CombinedRun(es, ip, l).0 == Combined(RedisRun(RedisSide(es), l), Run(MemorySide(es), l))
    decreases |es|
  {
    if es == [] {
    } else {
      var before, e := es[..|es| - 1], es[|es| - 1];
      CombinedStateSplits(before, ip, l);
      match e
      case ViaRedis(from, now) => RunsAppend(RedisSide(before), Request(from, now), ip, l);
      case ViaMemory(op) => RunsAppend(MemorySide(before), op, ip, l);
    }
  }

  /** The combined accepts in any span are the two separate limiters' accepts in it. */
  lemma {:induction false} CombinedAcceptsSplit(es: seq<Event>, ip: string, from: int, l: Limits)
    requires StrictEvents(es)
    ensures |InSpan(CombinedRun(es, ip, l).1, from, l.window)|
         == |InSpan(RedisAccepted(RedisSide(es), ip, l), from, l.window)|
          + |InSpan(Accepted(MemorySide(es), ip, l), from, l.window)|
    decreases |es|
  {
    if es == [] {
    } else {
      var before, e := es[..|es| - 1], es[|es| - 1];
      CombinedAcceptsSplit(before, ip, from, l);
      CombinedStateSplits(before, ip, l);
      InSpanAppend(CombinedRun(before, ip, l).1, e.Time(), from, l.window);
      var r, m := RedisSide(before), MemorySide(before);
      match e
      case ViaRedis(_, now) =>
        RunsAppend(r, Request(e.ip, now), ip, l);
        InSpanAppend(RedisAccepted(r, ip, l), now, from, l.window);
      case ViaMemory(op) =>
        RunsAppend(m, op, ip, l);
        InSpanAppend(Accepted(m, ip, l), op.now, from, l.window);
        MemoryDecision(es, ip, l);
    }
  }

  lemma MemoryDecision(es: seq<Event>, ip: string, l: Limits)
    requires StrictEvents(es) && es != [] && es[|es| - 1].ViaMemory?
    ensures var m, op := MemorySide(es[..|es| - 1]), es[|es| - 1].op;
            op.Request? && op.ip == ip ==> (AllowNext(Run(m, l), ip, op.now, l).1 <==> FewerThanLimit(Accepted(m, ip, l), op.now, l))
  {
    var m, op := MemorySide(es[..|es| - 1]), es[|es| - 1].op;
    if op.Request? && op.ip == ip {
      SidesAreOrdered(es);
      AllowsExactly(m, ip, op.now, l);
    }
  }

  /** However the pipeline fails and recovers, no window holds more than twice the limit. */
  lemma FallbackKeepsTwiceTheLimit(es: seq<Event>, ip: string, from: int, l: Limits)
    requires StrictEvents(es)
    ensures |InSpan(CombinedRun(es, ip, l).1, from, l.window)| <= 2 * Max(l.limit, 0)
  {
    CombinedAcceptsSplit(es, ip, from, l);
    SidesAreOrdered(es);
    NoRedisWindowOverflows(RedisSide(es), ip, from, l);
    NoWindowOverflows(MemorySide(es), ip, from, l);
  }

  class RedisRateLimiter {
    /** Whether a client was configured at all. */
    const client: bool
    /** The server's keys, as this limiter's pipelines leave them. */
    var redis: Redis
    const fallback: RateLimiter
    const limit: int
    const window: int

    ghost predicate Valid()
      reads this
    {
      fallback.limit == limit && fallback.window == window
    }

    constructor (client: bool, limit: int, window: int)
      ensures Valid() && this.client == client && this.limit == limit && this.window == window
      ensures fresh(fallback) && View() == Combined(map[], map[])
    {
      this.client, this.limit, this.window, redis := client, limit, window, map[];
      fallback := new RateLimiter(limit, window);
    }

    ghost function View(): Combined
      reads this, fallback
    {
      Combined(redis, fallback.requests)
    }

    /** Without a client, or when the pipeline reports an error (`up` is false), the in-memory limiter decides. */
    method Allow(ip: string, now: int, up: bool) returns (ok: bool)
      requires Valid()
      modifies this`redis, fallback`requests
      ensures Valid()
      ensures (View(), ok) == CombinedNext(old(View()), ip, now, client && up, Limits(limit, window))
    {
      if !client {
        ok := fallback.Allow(ip, now);
        return;
      }
      if !up {
        ok := fallback.Allow(ip, now);
        return;
      }
      var trimmed := Trimmed(Live(redis, ip, now), now, window);
      var count := |trimmed|;
      redis := redis[ip := SortedSet(trimmed + {now}, now + window)];
      return count < limit;
    }
  }
}
