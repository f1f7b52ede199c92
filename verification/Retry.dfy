/**
 * Per-device exponential backoff of the IPMI collector (collectors/ipmi-collector/internal/collector/retry.go).
 * Instants are integer nanoseconds; durations are 64-bit signed integers, with the wrap-around written out.
 */
module Retry {
  import opened Common

  const SECOND: int := 1_000_000_000
  const MAX_BACKOFF: int := 600 * SECOND
  const TWO_63: int := 0x8000_0000_0000_0000
  const TWO_64: int := 0x1_0000_0000_0000_0000

  // --- Backoff arithmetic ---

  /** The value of an integer product in a 64-bit signed register. */
  function Wrap64(x: int): (r: int)
    ensures -TWO_63 <= r < TWO_63 && (r == x % TWO_64 || r == x % TWO_64 - TWO_64)
  {
    var m := x % TWO_64;
    if m >= TWO_63 then m - TWO_64 else m
  }

  /** Converting 2^n from floating point: exact while it fits, and whatever the platform yields after that. */
  function ToDuration(n: nat, platform: int): int {
    if n <= 62 then Pow2(n) else platform
  }

  /** The delay after the `count`-th consecutive failure, as computed. */
  function Backoff(count: nat, platform: int): int
    requires 0 < count
  {
    var backoff := Wrap64(ToDuration(count - 1, platform) * SECOND);
    if backoff > MAX_BACKOFF then MAX_BACKOFF else backoff
  }

  /** The delay as documented: 1 s, 2 s, 4 s, ... and at most ten minutes. */
  function Documented(count: nat): int
    requires 0 < count
  {
    Min(Pow2(count - 1), 600) * SECOND
  }

  lemma {:induction false} Pow2Mono(a: nat, b: nat)
    requires a <= b
    ensures Pow2(a) <= Pow2(b)
  {
    if a == b {
    } else {
      Pow2Mono(a, b - 1);
    }
  }

  lemma {:induction false} Pow2Sum(a: nat, b: nat)
    ensures Pow2(a + b) == Pow2(a) * Pow2(b)
  {
    if a == 0 {
    } else {
      Pow2Sum(a - 1, b);
      assert Pow2(a + b) == 2 * Pow2(a - 1 + b);
      assert 2 * (Pow2(a - 1) * Pow2(b)) == (2 * Pow2(a - 1)) * Pow2(b);
    }
  }

  lemma Pow2Values()
    ensures Pow2(10) == 1024 && Pow2(33) == 0x2_0000_0000 && Pow2(34) == 0x4_0000_0000
  {
    assert Pow2(5) == 32;
    Pow2Sum(5, 5);
    Pow2Sum(10, 10);
    Pow2Sum(20, 10);
    assert Pow2(30) == 0x4000_0000;
    assert Pow2(33) == 8 * Pow2(30);
  }

  /** Through the 34th failure the computed delay is the documented one. */
  lemma BackoffExact(count: nat, platform: int)
    requires 0 < count <= 34
    ensures Backoff(count, platform) == Documented(count)
  {
    Pow2Values();
    Pow2Mono(count - 1, 33);
    var product := Pow2(count - 1) * SECOND;
    assert 0 <= product < TWO_63;
  }

  /** At the 35th failure the product wraps, and the delay is negative. */
  lemma BackoffWraps(platform: int)
    ensures Backoff(35, platform) < 0
  {
    Pow2Values();
    var product := Pow2(34) * SECOND;
    assert TWO_63 <= product < TWO_64;
  }

  /** The documented delays hold all through a streak exactly when it is no longer than 34 failures. */
  lemma BackoffDocumentedIff(count: nat, platform: int)
    ensures (forall m :: 0 < m <= count ==> Backoff(m, platform) == Documented(m)) <==> count <= 34
  {
    forall m | 0 < m <= count && m <= 34 ensures Backoff(m, platform) == Documented(m) { BackoffExact(m, platform); }
    if count > 34 {
      BackoffWraps(platform);
      assert Backoff(35, platform) != Documented(35);
    }
  }

  // --- Poll histories ---

  datatype RetryState = RetryState(hostname: string, failureCount: nat, lastAttempt: int, nextAttempt: int)

  type States = map<string, RetryState>

  /**
   * One visit of PollDeviceWithRetry: the clock at the gate, what the poll would answer, and the two clock readings
   * of RecordFailure. One device is visited by one goroutine at a time; visits of different devices may overlap.
   */
  datatype Visit = Visit(id: string, hostname: string, gate: int, ok: bool, failedAt: int, stampAt: int)

  function GateOpen(states: States, id: string, now: int): bool {
    id in states ==> now > states[id].nextAttempt
  }

  function CountOf(states: States, id: string): nat {
    if id in states then states[id].failureCount else 0
  }

  function Failed(states: States, v: Visit, platform: int): RetryState {
    var hostname := if v.id in states then states[v.id].hostname else v.hostname;
    var count := CountOf(states, v.id) + 1;
    RetryState(hostname, count, v.failedAt, v.stampAt + Backoff(count, platform))
  }

  function Next(states: States, v: Visit, platform: int): States {
    if !GateOpen(states, v.id, v.gate) then states
    else if v.ok then states - {v.id}
    else states[v.id := Failed(states, v, platform)]
  }

  ghost function Run(visits: seq<Visit>, platform: int): States
    decreases |visits|
  {
    if visits == [] then map[] else Next(Run(visits[..|visits| - 1], platform), visits[|visits| - 1], platform)
  }

  /** The visits of one device that really polled it. */
  ghost function Polls(visits: seq<Visit>, id: string, platform: int): seq<Visit>
    decreases |visits|
  {
    if visits == [] then [] else
      var before, v := visits[..|visits| - 1], visits[|visits| - 1];
      var earlier := Polls(before, id, platform);
      if v.id == id && GateOpen(Run(before, platform), id, v.gate) then earlier + [v] else earlier
  }

  /** The number of failures since the last success. */
  function Trailing(polls: seq<Visit>): (n: nat)
    ensures n <= |polls|
    ensures forall i :: |polls| - n <= i < |polls| ==> !polls[i].ok
    ensures n < |polls| ==> polls[|polls| - n - 1].ok
  {
    if polls == [] || polls[|polls| - 1].ok then 0 else 1 + Trailing(polls[..|polls| - 1])
  }

  lemma {:induction false} CountsArePositive(visits: seq<Visit>, id: string, platform: int)
    ensures id in Run(visits, platform) ==> Run(visits, platform)[id].failureCount > 0
    decreases |visits|
  {
    if visits == [] {
    } else {
      CountsArePositive(visits[..|visits| - 1], id, platform);
    }
  }

  /** A device that has not failed since its last success, or has never been polled, is polled at every visit. */
  lemma HealthyIsPolled(visits: seq<Visit>, id: string, now: int, platform: int)
    requires Trailing(Polls(visits, id, platform)) == 0
    ensures GateOpen(Run(visits, platform), id, now)
  {
    CountIsTrailingFailures(visits, id, platform);
    CountsArePositive(visits, id, platform);
  }

  lemma TrailingAppend(polls: seq<Visit>, v: Visit)
    ensures Trailing(polls + [v]) == if v.ok then 0 else 1 + Trailing(polls)
  {
    assert (polls + [v])[..|polls|] == polls;
  }

  /** The stored count is the device's number of trailing failures. */
  lemma {:induction false} CountIsTrailingFailures(visits: seq<Visit>, id: string, platform: int)
    ensures CountOf(Run(visits, platform), id) == Trailing(Polls(visits, id, platform))
    decreases |visits|
  {
    if visits == [] {
    } else {
      var before, v := visits[..|visits| - 1], visits[|visits| - 1];
      CountIsTrailingFailures(before, id, platform);
      TrailingAppend(Polls(before, id, platform), v);
    }
  }

  /** A visit touches no device but its own. */
  lemma OthersUntouched(visits: seq<Visit>, v: Visit, id: string, platform: int)
    requires id != v.id
    ensures StateOf(Run(visits + [v], platform), id) == StateOf(Run(visits, platform), id)
  {
    assert (visits + [v])[..|visits|] == visits;
  }

  function StateOf(states: States, id: string): Option<RetryState> {
    if id in states then Some(states[id]) else None
  }

  lemma NextIsLocal(a: States, b: States, v: Visit, id: string, platform: int)
    requires StateOf(a, id) == StateOf(b, id)
    ensures StateOf(Next(a, v, platform), id) == if v.id == id then StateOf(Next(b, v, platform), id) else StateOf(b, id)
  {}

  function VisitsOf(visits: seq<Visit>, id: string): seq<Visit> {
    Filter(visits, (v: Visit) => v.id == id)
  }

  lemma VisitsOfAppend(visits: seq<Visit>, v: Visit, id: string)
    ensures VisitsOf(visits + [v], id) == if v.id == id then VisitsOf(visits, id) + [v] else VisitsOf(visits, id)
  {
    FilterAppend(visits, [v], (v: Visit) => v.id == id);
    assert Filter([v], (v: Visit) => v.id == id) == if v.id == id then [v] else [] by { assert [v][1..] == []; }
  }

  lemma RunAppend(visits: seq<Visit>, v: Visit, platform: int)
    ensures Run(visits + [v], platform) == Next(Run(visits, platform), v, platform)
  {
    assert (visits + [v])[..|visits|] == visits;
  }

  /** What is stored for a device depends on its own visits alone. */
  lemma {:induction false} DevicesAreIndependent(visits: seq<Visit>, id: string, platform: int)
    ensures StateOf(Run(visits, platform), id) == StateOf(Run(VisitsOf(visits, id), platform), id)
    decreases |visits|
  {
    if visits == [] {
      assert VisitsOf(visits, id) == [];
    } else {
      var before, v := visits[..|visits| - 1], visits[|visits| - 1];
      DevicesAreIndependent(before, id, platform);
      assert visits == before + [v];
      VisitsOfAppend(before, v, id);
      NextIsLocal(Run(before, platform), Run(VisitsOf(before, id), platform), v, id, platform);
      if v.id == id {
        RunAppend(VisitsOf(before, id), v, platform);
      }
    }
  }

  /** The documented delays of the first `n` failures of a streak, added up. */
  ghost function Waited(n: nat): int {
    if n == 0 then 0 else Waited(n - 1) + Documented(n)
  }

  /** In closed form: 2^n - 1 seconds up to the tenth failure, then ten minutes more for each. */
  lemma {:induction false} WaitedClosedForm(n: nat)
    ensures n <= 10 ==> Waited(n) == (Pow2(n) - 1) * SECOND
    ensures n >= 10 ==> Waited(n) == (1023 + 600 * (n - 10)) * SECOND
  {
    Pow2Values();
    if n == 0 {
    } else {
      WaitedClosedForm(n - 1);
      if n <= 10 {
        Pow2Mono(n - 1, 9);
      } else {
        Pow2Mono(10, n - 1);
      }
    }
  }

  /** The clock readings inside each visit are in order. */
  ghost predicate Timed(visits: seq<Visit>) {
    forall i :: 0 <= i < |visits| ==> visits[i].gate <= visits[i].failedAt <= visits[i].stampAt
  }

  /** During a streak of at most 34 failures the gate stays shut until the whole documented wait is over. */
  ghost predicate Follows(states: States, id: string, polls: seq<Visit>) {
    var n := Trailing(polls);
    0 < n <= 34 ==> id in states && states[id].nextAttempt >= polls[|polls| - n].gate + Waited(n)
  }

  lemma FollowsStep(states: States, v: Visit, polls: seq<Visit>, platform: int)
    requires Follows(states, v.id, polls) && CountOf(states, v.id) == Trailing(polls)
    requires GateOpen(states, v.id, v.gate) && v.gate <= v.stampAt
    ensures Follows(Next(states, v, platform), v.id, polls + [v])
  {
    var n := Trailing(polls);
    TrailingAppend(polls, v);
    if !v.ok && n + 1 <= 34 {
      BackoffExact(n + 1, platform);
      assert Waited(n + 1) == Waited(n) + Documented(n + 1);
      assert n > 0 ==> (polls + [v])[|polls| - n] == polls[|polls| - n];
    }
  }

  lemma {:induction false} GateFollowsStreak(visits: seq<Visit>, id: string, platform: int)
    requires Timed(visits)
    ensures Follows(Run(visits, platform), id, Polls(visits, id, platform))
    decreases |visits|
  {
    if visits == [] {
    } else {
      var before, v := visits[..|visits| - 1], visits[|visits| - 1];
      GateFollowsStreak(before, id, platform);
      if v.id == id && GateOpen(Run(before, platform), id, v.gate) {
        CountIsTrailingFailures(before, id, platform);
        FollowsStep(Run(before, platform), v, Polls(before, id, platform), platform);
      }
    }
  }

  /**
   * From the first to the (n+1)th poll of a streak of failures, for n up to 34, more time passes than the documented
   * delays of the n failures in between.
   */
  lemma StreakIsSpacedOut(visits: seq<Visit>, v: Visit, platform: int, n: nat)
    requires Timed(visits) && n == Trailing(Polls(visits, v.id, platform)) && 0 < n <= 34
    requires GateOpen(Run(visits, platform), v.id, v.gate)
    ensures var polls := Polls(visits, v.id, platform);
            v.gate - polls[|polls| - n].gate > Waited(n)
  {
    GateFollowsStreak(visits, v.id, platform);
  }

  /** At the 35th failure in a row the backoff is gone: the gate is open again at once. */
  lemma GateOpenAfter35Failures(visits: seq<Visit>, v: Visit, now: int, platform: int)
    requires Trailing(Polls(visits, v.id, platform)) == 34
    requires GateOpen(Run(visits, platform), v.id, v.gate) && !v.ok && v.stampAt <= now
    ensures GateOpen(Run(visits + [v], platform), v.id, now)
  {
    assert (visits + [v])[..|visits|] == visits;
    CountIsTrailingFailures(visits, v.id, platform);
    BackoffWraps(platform);
  }

  // --- A streak that is not spaced out ---

  /** The i-th visit of a device that fails at once, each at the first instant its gate opens. */
  ghost function StreakVisit(id: string, i: nat): Visit {
    Visit(id, "", Waited(i) + i, false, Waited(i) + i, Waited(i) + i)
  }

  ghost function Streak(id: string, n: nat): (visits: seq<Visit>)
    ensures |visits| == n && forall i :: 0 <= i < n ==> visits[i] == StreakVisit(id, i)
  {
    if n == 0 then [] else Streak(id, n - 1) + [StreakVisit(id, n - 1)]
  }

  /** Every visit of the streak polls and fails, up to the 35th. */
  lemma {:induction false} StreakPolls(id: string, n: nat, platform: int)
    requires n <= 35
    ensures Polls(Streak(id, n), id, platform) == Streak(id, n) && Trailing(Streak(id, n)) == n
    ensures CountOf(Run(Streak(id, n), platform), id) == n
    ensures n > 0 ==>
              var states := Run(Streak(id, n), platform);
              id in states && states[id].nextAttempt == StreakVisit(id, n - 1).gate + Backoff(n, platform)
    ensures n == 0 ==> id !in Run(Streak(id, n), platform)
  {
    if n == 0 {
    } else {
      StreakPolls(id, n - 1, platform);
      var before, v := Streak(id, n - 1), StreakVisit(id, n - 1);
      assert Streak(id, n)[..n - 1] == before;
      TrailingAppend(before, v);
      if n > 1 { BackoffExact(n - 1, platform); }
    }
  }

  lemma StreakIsTimed(id: string, n: nat)
    ensures Timed(Streak(id, n))
  {}

  /** The delays in a streak of 35: 34 documented ones, each overrun by a nanosecond, and then none. */
  lemma StreakIsShort(n: nat)
    requires n == 35
    ensures StreakVisit("", n - 1).gate - StreakVisit("", 0).gate < Waited(n)
  {
    assert Waited(n) == Waited(n - 1) + Documented(n);
    Pow2Mono(0, n - 1);
  }

  /** The device has failed `n` times in a row, and the gate lets `v` poll. */
  ghost predicate PollsAfter(visits: seq<Visit>, v: Visit, n: nat, platform: int) {
    Timed(visits) && 0 < n == Trailing(Polls(visits, v.id, platform)) && GateOpen(Run(visits, platform), v.id, v.gate)
  }

  /** The time from the first of the last `n` polls to `v`. */
  ghost function Elapsed(visits: seq<Visit>, v: Visit, n: nat, platform: int): int
    requires PollsAfter(visits, v, n, platform)
  {
    var polls := Polls(visits, v.id, platform);
    v.gate - polls[|polls| - n].gate
  }

  /** On every platform a run of n = 35 failures in a row after which the next poll comes far too early. */
  lemma StreakNotSpacedOut(n: nat, platform: int) returns (visits: seq<Visit>, v: Visit)
    requires n == 35
    ensures PollsAfter(visits, v, n, platform) && Elapsed(visits, v, n, platform) < Waited(n)
  {
    visits, v := Streak("", n), StreakVisit("", n - 1);
    StreakPolls("", n, platform);
    StreakIsTimed("", n);
    BackoffWraps(platform);
    StreakIsShort(n);
    assert visits[0] == StreakVisit("", 0);
  }

  /** If so, the documented delays have passed. */
  ghost predicate SpacedRun(visits: seq<Visit>, v: Visit, n: nat, platform: int) {
    PollsAfter(visits, v, n, platform) ==> Elapsed(visits, v, n, platform) > Waited(n)
  }

  ghost predicate SpacedAt(n: nat, platform: int) {
    forall visits: seq<Visit>, v: Visit :: SpacedRun(visits, v, n, platform)
  }

  lemma SpacedThrough34(n: nat, platform: int)
    requires n <= 34
    ensures SpacedAt(n, platform)
  {
    forall visits: seq<Visit>, v: Visit ensures SpacedRun(visits, v, n, platform) {
      if PollsAfter(visits, v, n, platform) {
        StreakIsSpacedOut(visits, v, platform, n);
      }
    }
  }

  lemma NotSpacedAt(visits: seq<Visit>, v: Visit, n: nat, platform: int)
    requires PollsAfter(visits, v, n, platform) && Elapsed(visits, v, n, platform) <= Waited(n)
    ensures !SpacedAt(n, platform)
  {
    assert !SpacedRun(visits, v, n, platform);
  }

  /** Streaks of up to `n` failures are spaced out in every run exactly when `n` is at most 34. */
  lemma SpacedOutIff(n: nat, platform: int)
    ensures (forall m: nat :: m <= n ==> SpacedAt(m, platform)) <==> n <= 34
  {
    if n <= 34 {
      forall m: nat | m <= n ensures SpacedAt(m, platform) { SpacedThrough34(m, platform); }
    } else {
      var m: nat := 35;
      var visits, v := StreakNotSpacedOut(m, platform);
      NotSpacedAt(visits, v, m, platform);
    }
  }

  // --- The manager itself ---

  class RetryManager {
    var states: States

    constructor ()
      ensures states == map[]
    {
      states := map[];
    }

    method ShouldRetry(id: string, now: int) returns (ok: bool)
      ensures ok == GateOpen(states, id, now)
      ensures ok <==> id !in states || now > states[id].nextAttempt
    {
      if id !in states {
        return true;
      }
      return now > states[id].nextAttempt;
    }

    method RecordFailure(v: Visit, platform: int) returns (backoff: int)
      modifies this
      ensures states == old(states)[v.id := Failed(old(states), v, platform)]
      ensures v.id in states && states[v.id].failureCount == CountOf(old(states), v.id) + 1
      ensures states[v.id].lastAttempt == v.failedAt && states[v.id].nextAttempt == v.stampAt + backoff
      ensures states[v.id].hostname == if v.id in old(states) then old(states)[v.id].hostname else v.hostname
      ensures backoff == Backoff(CountOf(states, v.id), platform)
    {
      if v.id !in states {
        states := states[v.id := RetryState(v.hostname, 0, 0, 0)];
      }
      var state := states[v.id];
      state := state.(failureCount := state.failureCount + 1, lastAttempt := v.failedAt);
      backoff := Wrap64(ToDuration(state.failureCount - 1, platform) * SECOND);
      if backoff > MAX_BACKOFF {
        backoff := MAX_BACKOFF;
      }
      state := state.(nextAttempt := v.stampAt + backoff);
      states := states[v.id := state];
    }

    method RecordSuccess(id: string)
      modifies this
      ensures states == old(states) - {id}
    {
      states := states - {id};
    }

    method GetFailureCount(id: string) returns (n: nat)
      ensures n == CountOf(states, id)
    {
      if id !in states {
        return 0;
      }
      return states[id].failureCount;
    }
  }

  /** PollDeviceWithRetry; `toSnmp` says whether the device was handed over to SNMP. */
  method PollDeviceWithRetry(rm: RetryManager, v: Visit, platform: int) returns (polled: bool, toSnmp: bool)
    modifies rm
    ensures rm.states == Next(old(rm.states), v, platform)
    ensures polled == GateOpen(old(rm.states), v.id, v.gate)
    ensures toSnmp <==> polled && !v.ok && CountOf(old(rm.states), v.id) >= 2
  {
    polled, toSnmp := false, false;
    var retry := rm.ShouldRetry(v.id, v.gate);
    if !retry {
      return;
    }
    polled := true;
    if !v.ok {
      var backoff := rm.RecordFailure(v, platform);
      var n := rm.GetFailureCount(v.id);
      toSnmp := n >= 3;
      return;
    }
    rm.RecordSuccess(v.id);
  }
}
