/**
 * The sliding-window request limiters (backend/internal/api/middleware/rate_limit.go): the in-memory one with its
 * background cleanup.
 * Instants are integer nanoseconds on one clock that never runs backwards.
 */
module RateLimit {
  import opened Common

  type Requests = map<string, seq<int>>

  datatype Limits = Limits(limit: int, window: int)

  /** One atomic section of the in-memory limiter. */
  datatype Op = Request(ip: string, now: int) | Cleanup(now: int)

  /** The timestamps still inside the window at `now`. */
  function Pruned(ts: seq<int>, now: int, window: int): seq<int> {
    Filter(ts, t => now - t < window)
  }

  /** The timestamps inside the span of one window that opens at `from`. */
  function InSpan(ts: seq<int>, from: int, window: int): seq<int> {
    Filter(ts, t => from <= t < from + window)
  }

  function At(m: Requests, ip: string): seq<int> {
    if ip in m then m[ip] else []
  }

  function AllowNext(m: Requests, ip: string, now: int, l: Limits): (Requests, bool) {
    var valid := Pruned(At(m, ip), now, l.window);
    if |valid| >= l.limit then (m, false) else (m[ip := valid + [now]], true)
  }

  function CleanupNext(m: Requests, now: int, l: Limits): Requests {
    map ip | ip in m && Pruned(m[ip], now, l.window) != [] :: Pruned(m[ip], now, l.window)
  }

  function Step(m: Requests, op: Op, l: Limits): Requests {
    match op
    case Request(ip, now) => AllowNext(m, ip, now, l).0
    case Cleanup(now) => CleanupNext(m, now, l)
  }

  /** The map after a whole run of requests and cleanups. */
  ghost function Run(ops: seq<Op>, l: Limits): Requests
    decreases |ops|
  {
    if ops == [] then map[] else Step(Run(ops[..|ops| - 1], l), ops[|ops| - 1], l)
  }

  /** The answers the limiter gave to the requests of a run, in order. */
  ghost function Answers(ops: seq<Op>, l: Limits): seq<bool>
    decreases |ops|
  {
    if ops == [] then [] else
      var before, op := ops[..|ops| - 1], ops[|ops| - 1];
      if op.Request? then Answers(before, l) + [AllowNext(Run(before, l), op.ip, op.now, l).1] else Answers(before, l)
  }

  // --- The full history, which nothing ever prunes ---

  ghost predicate FewerThanLimit(accepted: seq<int>, now: int, l: Limits) {
    |Pruned(accepted, now, l.window)| < l.limit
  }

  /** All instants at which a request of `ip` has ever been accepted, judged on the full history alone. */
  ghost function Accepted(ops: seq<Op>, ip: string, l: Limits): seq<int>
    decreases |ops|
  {
    if ops == [] then [] else
      var earlier, op := Accepted(ops[..|ops| - 1], ip, l), ops[|ops| - 1];
      if op.Request? && op.ip == ip && FewerThanLimit(earlier, op.now, l) then earlier + [op.now] else earlier
  }

  ghost function HistoryAnswers(ops: seq<Op>, l: Limits): seq<bool>
    decreases |ops|
  {
    if ops == [] then [] else
      var before, op := ops[..|ops| - 1], ops[|ops| - 1];
      if op.Request? then HistoryAnswers(before, l) + [FewerThanLimit(Accepted(before, op.ip, l), op.now, l)]
      else HistoryAnswers(before, l)
  }

  ghost predicate Ordered(ops: seq<Op>) {
    forall i, j :: 0 <= i <= j < |ops| ==> ops[i].now <= ops[j].now
  }

  /** A cleanup keeps exactly the timestamps inside the window, and exactly the ips that have one. */
  lemma CleanupIs(m: Requests, now: int, l: Limits, ip: string, t: int)
    ensures t in At(CleanupNext(m, now, l), ip) <==> t in At(m, ip) && now - t < l.window
    ensures ip in CleanupNext(m, now, l) <==> ip in m && exists u :: u in m[ip] && now - u < l.window
  {
    if ip in m {
      var kept := Pruned(m[ip], now, l.window);
      FilterMembers(m[ip], u => now - u < l.window, t);
      if kept != [] {
        assert kept[0] in kept;
        FilterMembers(m[ip], u => now - u < l.window, kept[0]);
      }
      if u :| u in m[ip] && now - u < l.window {
        FilterMembers(m[ip], x => now - x < l.window, u);
      }
    }
  }

  /** An accepted request leaves the timestamps inside the window and its own; a refused one, and other ips, change nothing. */
  lemma AllowStores(m: Requests, ip: string, now: int, l: Limits, t: int)
    ensures var (m', ok) := AllowNext(m, ip, now, l);
            && (ok ==> (t in At(m', ip) <==> t == now || (t in At(m, ip) && now - t < l.window)))
            && (!ok ==> m' == m)
            && forall other :: other != ip ==> At(m', other) == At(m, other)
  {
    FilterMembers(At(m, ip), u => now - u < l.window, t);
  }

  // --- The pruned map agrees with the full history ---

  lemma PrunedTwice(ts: seq<int>, now: int, later: int, window: int)
    requires now <= later
    ensures Pruned(Pruned(ts, now, window), later, window) == Pruned(ts, later, window)
  {
    FilterTwice(ts, t => now - t < window, t => later - t < window);
  }

  /** From `from` on, the pruned list answers every window query as the full history does. */
  ghost predicate Agrees(kept: seq<int>, history: seq<int>, from: int, window: int) {
    forall now :: from <= now ==> Pruned(kept, now, window) == Pruned(history, now, window)
  }

  lemma {:induction false} MapAgreesWithHistory(ops: seq<Op>, ip: string, from: int, l: Limits)
    requires Ordered(ops) && (ops != [] ==> ops[|ops| - 1].now <= from)
    ensures Agrees(At(Run(ops, l), ip), Accepted(ops, ip, l), from, l.window)
    decreases |ops|
  {
    if ops == [] {
    } else {
      var before, op := ops[..|ops| - 1], ops[|ops| - 1];
      MapAgreesWithHistory(before, ip, op.now, l);
      var kept, history := At(Run(before, l), ip), Accepted(before, ip, l);
      assert Pruned(kept, op.now, l.window) == Pruned(history, op.now, l.window);
      forall now | from <= now
        ensures Pruned(At(Run(ops, l), ip), now, l.window) == Pruned(Accepted(ops, ip, l), now, l.window)
      {
        PrunedTwice(kept, op.now, now, l.window);
        assert Pruned(kept, now, l.window) == Pruned(history, now, l.window);
        FilterAppend(Pruned(kept, op.now, l.window), [op.now], t => now - t < l.window);
        FilterAppend(history, [op.now], t => now - t < l.window);
      }
    }
  }

  /** A request is allowed exactly when fewer than `limit` requests of its ip were accepted in the last window. */
  lemma AllowsExactly(ops: seq<Op>, ip: string, now: int, l: Limits)
    requires Ordered(ops + [Request(ip, now)])
    ensures AllowNext(Run(ops, l), ip, now, l).1 <==> |Pruned(Accepted(ops, ip, l), now, l.window)| < l.limit
  {
    var all := ops + [Request(ip, now)];
    assert forall i :: 0 <= i < |ops| ==> ops[i] == all[i];
    assert ops != [] ==> all[|ops| - 1].now <= all[|ops|].now;
    MapAgreesWithHistory(ops, ip, now, l);
  }

  lemma {:induction false} AnswersFollowHistory(ops: seq<Op>, l: Limits)
    requires Ordered(ops)
    ensures Answers(ops, l) == HistoryAnswers(ops, l)
    decreases |ops|
  {
    if ops == [] {
    } else {
      var before, op := ops[..|ops| - 1], ops[|ops| - 1];
      AnswersFollowHistory(before, l);
      if op.Request? {
        assert ops == before + [op];
        AllowsExactly(before, op.ip, op.now, l);
      }
    }
  }

  function RequestsOnly(ops: seq<Op>): seq<Op> {
    Filter(ops, (o: Op) => o.Request?)
  }

  /** Cleanups leave no trace in the full history. */
  lemma {:induction false} HistoryIgnoresCleanups(ops: seq<Op>, ip: string, l: Limits)
    ensures Accepted(ops, ip, l) == Accepted(RequestsOnly(ops), ip, l)
    ensures HistoryAnswers(ops, l) == HistoryAnswers(RequestsOnly(ops), l)
    decreases |ops|
  {
    if ops == [] {
    } else {
      var before, op := ops[..|ops| - 1], ops[|ops| - 1];
      HistoryIgnoresCleanups(before, ip, l);
      if op.Request? { HistoryIgnoresCleanups(before, op.ip, l); }
      assert ops == before + [op];
      FilterAppend(before, [op], (o: Op) => o.Request?);
      var rest := RequestsOnly(before);
      assert Filter([op], (o: Op) => o.Request?) == if op.Request? then [op] else [] by {
        assert [op][1..] == [];
      }
      assert RequestsOnly(ops) == if op.Request? then rest + [op] else rest;
      assert (rest + [op])[..|rest + [op]| - 1] == rest;
    }
  }

  /** Whenever and however often cleanups run, no request is answered differently. */
  lemma CleanupIsInvisible(ops: seq<Op>, l: Limits)
    requires Ordered(ops)
    ensures Answers(ops, l) == Answers(RequestsOnly(ops), l)
  {
    AnswersFollowHistory(ops, l);
    FilterOrdered(ops, (o: Op) => o.Request?, (o: Op) => o.now);
    AnswersFollowHistory(RequestsOnly(ops), l);
    HistoryIgnoresCleanups(ops, "", l);
  }

  lemma {:induction false} AcceptedAreRequests(ops: seq<Op>, ip: string, l: Limits)
    requires Ordered(ops)
    ensures forall t :: t in Accepted(ops, ip, l) ==> exists i :: 0 <= i < |ops| && ops[i] == Request(ip, t)
    decreases |ops|
  {
    if ops == [] {
    } else {
      AcceptedAreRequests(ops[..|ops| - 1], ip, l);
      assert ops[|ops| - 1] in ops;
    }
  }

  /** No span of one window length ever holds more than `limit` accepted requests of one ip. */
  lemma {:induction false} NoWindowOverflows(ops: seq<Op>, ip: string, from: int, l: Limits)
    requires Ordered(ops)
    ensures |InSpan(Accepted(ops, ip, l), from, l.window)| <= Max(l.limit, 0)
    decreases |ops|
  {
    if ops == [] {
    } else {
      var before, op := ops[..|ops| - 1], ops[|ops| - 1];
      NoWindowOverflows(before, ip, from, l);
      var earlier := Accepted(before, ip, l);
      FilterAppend(earlier, [op.now], t => from <= t < from + l.window);
      if Accepted(ops, ip, l) != earlier && from <= op.now < from + l.window {
        AcceptedAreRequests(before, ip, l);
        assert forall i :: 0 <= i < |earlier| ==> earlier[i] in earlier;
        FilterSizes(earlier, t => from <= t < from + l.window, t => op.now - t < l.window);
      }
    }
  }

  // --- The limiter as the source writes it ---

  lemma FilterStep(ts: seq<int>, i: nat, p: int -> bool)
    requires i < |ts|
    ensures Filter(ts[..i + 1], p) == Filter(ts[..i], p) + (if p(ts[i]) then [ts[i]] else [])
  {
    FilterAppend(ts[..i], [ts[i]], p);
    assert ts[..i + 1] == ts[..i] + [ts[i]];
    assert [ts[i]][1..] == [];
  }

  class RateLimiter {
    var requests: Requests
    const limit: int
    const window: int

    constructor (limit: int, window: int)
      ensures requests == map[] && this.limit == limit && this.window == window
    {
      requests, this.limit, this.window := map[], limit, window;
    }

    method Allow(ip: string, now: int) returns (ok: bool)
      modifies this`requests
      ensures (requests, ok) == AllowNext(old(requests), ip, now, Limits(limit, window))
    {
      var timestamps := At(requests, ip);
      var valid := [];
      for i := 0 to |timestamps|
        invariant requests == old(requests)
        invariant valid == Pruned(timestamps[..i], now, window)
      {
        FilterStep(timestamps, i, t => now - t < window);
        if now - timestamps[i] < window {
          valid := valid + [timestamps[i]];
        }
      }
      assert timestamps[..|timestamps|] == timestamps;
      if |valid| >= limit {
        return false;
      }
      requests := requests[ip := valid + [now]];
      return true;
    }

    method Cleanup(now: int)
      modifies this`requests
      ensures requests == CleanupNext(old(requests), now, Limits(limit, window))
    {
      ghost var target := CleanupNext(requests, now, Limits(limit, window));
      var todo := requests.Keys;
      while todo != {}
        invariant todo <= old(requests).Keys
        invariant forall ip :: ip in todo ==> ip in requests && requests[ip] == old(requests)[ip]
        invariant forall ip :: ip !in todo ==> (ip in requests <==> ip in target)
        invariant forall ip :: ip !in todo && ip in target ==> requests[ip] == target[ip]
        decreases todo
      {
        var ip :| ip in todo;
        var timestamps := requests[ip];
        var valid := [];
        ghost var current := requests;
        for i := 0 to |timestamps|
          invariant requests == current
          invariant valid == Pruned(timestamps[..i], now, window)
        {
          FilterStep(timestamps, i, t => now - t < window);
          if now - timestamps[i] < window {
            valid := valid + [timestamps[i]];
          }
        }
        assert timestamps[..|timestamps|] == timestamps;
        if |valid| == 0 {
          requests := requests - {ip};
        } else {
          requests := requests[ip := valid];
        }
        todo := todo - {ip};
      }
    }
  }
}
