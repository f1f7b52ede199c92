/**
 * One poll cycle of the IPMI collector (collectors/ipmi-collector/internal/collector/ipmi.go): a goroutine per device of
 * a snapshot, a channel used as a counting semaphore, and device reloads at any moment.
 */
module PollCycle {
  import opened Common

  datatype Pc =
    | Unborn    // the loop has not reached this device
    | Ready     // goroutine started, about to send into the semaphore channel
    | Holding   // its token is in the channel
    | Polled    // has been through the poll routine
    | Done      // token taken back, wait group told

  /** `order` lists the snapshot positions in the order in which they entered the poll routine. */
  datatype State<D> = State(
    devices: seq<D>, snapshot: seq<D>, maxConcurrent: nat, pcs: seq<Pc>, spawned: nat, tokens: nat, order: seq<nat>)

  datatype Action<D> = Spawn | Acquire(i: nat) | Poll(i: nat) | Release(i: nat) | Reload(loaded: seq<D>)

  function Start<D>(devices: seq<D>, maxConcurrent: nat): State<D> {
    State(devices, devices, maxConcurrent, seq(|devices|, _ => Unborn), 0, 0, [])
  }

  predicate Enabled<D>(s: State<D>, a: Action<D>) {
    match a
    case Spawn => s.spawned < |s.pcs|
    case Acquire(i) => i < |s.pcs| && s.pcs[i] == Ready && s.tokens < s.maxConcurrent
    case Poll(i) => i < |s.pcs| && s.pcs[i] == Holding
    case Release(i) => i < |s.pcs| && s.pcs[i] == Polled && s.tokens > 0
    case Reload(_) => true
  }

  function Next<D>(s: State<D>, a: Action<D>): State<D>
    requires Enabled(s, a)
  {
    match a
    case Spawn => s.(pcs := s.pcs[s.spawned := Ready], spawned := s.spawned + 1)
    case Acquire(i) => s.(pcs := s.pcs[i := Holding], tokens := s.tokens + 1)
    case Poll(i) => s.(pcs := s.pcs[i := Polled], order := s.order + [i])
    case Release(i) => s.(pcs := s.pcs[i := Done], tokens := s.tokens - 1)
    case Reload(loaded) => s.(devices := loaded)
  }

  ghost predicate Reaches<D>(from: State<D>, acts: seq<Action<D>>, to: State<D>)
    decreases |acts|
  {
    if acts == [] then from == to
    else Enabled(from, acts[0]) && Reaches(Next(from, acts[0]), acts[1..], to)
  }

  /** The wait group has been told by everyone. */
  predicate Finished<D>(s: State<D>) {
    forall i :: 0 <= i < |s.pcs| ==> s.pcs[i] == Done
  }

  predicate InPoll(pc: Pc) {
    pc == Holding || pc == Polled
  }

  /** The number of goroutines between acquiring and releasing. */
  function Running(pcs: seq<Pc>): nat {
    if pcs == [] then 0 else Running(pcs[..|pcs| - 1]) + (if InPoll(pcs[|pcs| - 1]) then 1 else 0)
  }

  /** The steps a goroutine still has to take. */
  function ToGo(pc: Pc): nat {
    match pc
    case Unborn => 4
    case Ready => 3
    case Holding => 2
    case Polled => 1
    case Done => 0
  }

  function Remaining(pcs: seq<Pc>): nat {
    if pcs == [] then 0 else Remaining(pcs[..|pcs| - 1]) + ToGo(pcs[|pcs| - 1])
  }

  lemma {:induction false} CountsAfter(pcs: seq<Pc>, i: nat, pc: Pc)
    requires i < |pcs|
    ensures Running(pcs[i := pc]) == Running(pcs) - (if InPoll(pcs[i]) then 1 else 0) + (if InPoll(pc) then 1 else 0)
    ensures Remaining(pcs[i := pc]) == Remaining(pcs) - ToGo(pcs[i]) + ToGo(pc)
    decreases |pcs|
  {
    var last := |pcs| - 1;
    if i < last {
      CountsAfter(pcs[..last], i, pc);
      assert pcs[i := pc][..last] == pcs[..last][i := pc];
    } else {
      assert pcs[i := pc][..last] == pcs[..last];
    }
  }

  lemma {:induction false} SomeRunning(pcs: seq<Pc>) returns (i: nat)
    requires Running(pcs) > 0
    ensures i < |pcs| && InPoll(pcs[i])
  {
    if InPoll(pcs[|pcs| - 1]) {
      i := |pcs| - 1;
    } else {
      i := SomeRunning(pcs[..|pcs| - 1]);
    }
  }

  lemma {:induction false} NoneRemaining(pcs: seq<Pc>)
    ensures Remaining(pcs) == 0 <==> forall i :: 0 <= i < |pcs| ==> pcs[i] == Done
    ensures Remaining(pcs) == 0 ==> Running(pcs) == 0
    decreases |pcs|
  {
    if pcs == [] {
    } else {
      NoneRemaining(pcs[..|pcs| - 1]);
    }
  }

  predicate HasPolled(pc: Pc) {
    pc == Polled || pc == Done
  }

  /** Goroutines are born in order, and each token in the channel belongs to one between acquiring and releasing. */
  ghost predicate Counted<D>(s: State<D>) {
    && |s.pcs| == |s.snapshot|
    && s.spawned <= |s.pcs|
    && (forall i :: 0 <= i < |s.pcs| ==> (s.pcs[i] == Unborn <==> i >= s.spawned))
    && s.tokens == Running(s.pcs) <= s.maxConcurrent
  }

  /** The log holds each device that has been through the poll routine, once. */
  ghost predicate Logged<D>(s: State<D>) {
    && Distinct(s.order)
    && (forall i: nat :: i in s.order <==> i < |s.pcs| && HasPolled(s.pcs[i]))
  }

  ghost predicate Inv<D>(s: State<D>) {
    Counted(s) && Logged(s)
  }

  lemma {:induction false} StartCounts(n: nat)
    ensures Running(seq(n, _ => Unborn)) == 0 && Remaining(seq(n, _ => Unborn)) == 4 * n
  {
    var pcs := seq(n, _ => Unborn);
    if n == 0 {
    } else {
      assert pcs[..n - 1] == seq(n - 1, _ => Unborn);
      StartCounts(n - 1);
    }
  }

  lemma CountedStep<D>(s: State<D>, a: Action<D>)
    requires Counted(s) && Enabled(s, a)
    ensures Counted(Next(s, a))
    ensures Remaining(Next(s, a).pcs) == Remaining(s.pcs) - (if a.Reload? then 0 else 1)
  {
    match a
    case Spawn => CountsAfter(s.pcs, s.spawned, Ready);
    case Acquire(i) => CountsAfter(s.pcs, i, Holding);
    case Poll(i) => CountsAfter(s.pcs, i, Polled);
    case Release(i) => CountsAfter(s.pcs, i, Done);
    case Reload(_) =>
  }

  lemma LoggedStep<D>(s: State<D>, a: Action<D>)
    requires Counted(s) && Logged(s) && Enabled(s, a)
    ensures Logged(Next(s, a))
  {
    var s' := Next(s, a);
    forall i: nat ensures i in s'.order <==> i < |s'.pcs| && HasPolled(s'.pcs[i]) {
      assert i in s'.order <==> i in s.order || (a.Poll? && i == a.i);
    }
  }

  lemma InvStep<D>(s: State<D>, a: Action<D>)
    requires Inv(s) && Enabled(s, a)
    ensures Inv(Next(s, a))
    ensures Next(s, a).snapshot == s.snapshot && Next(s, a).maxConcurrent == s.maxConcurrent
    ensures Remaining(Next(s, a).pcs) == Remaining(s.pcs) - (if a.Reload? then 0 else 1)
  {
    CountedStep(s, a);
    LoggedStep(s, a);
  }

  lemma StartInv<D>(devices: seq<D>, maxConcurrent: nat)
    ensures Inv(Start(devices, maxConcurrent)) && Remaining(Start(devices, maxConcurrent).pcs) == 4 * |devices|
  {
    StartCounts(|devices|);
  }

  function Steps<D>(acts: seq<Action<D>>): nat {
    if acts == [] then 0 else (if acts[0].Reload? then 0 else 1) + Steps(acts[1..])
  }

  lemma {:induction false} InvRun<D>(s: State<D>, acts: seq<Action<D>>, s': State<D>)
    requires Inv(s) && Reaches(s, acts, s')
    ensures Inv(s') && s'.snapshot == s.snapshot && s'.maxConcurrent == s.maxConcurrent
    ensures Steps(acts) + Remaining(s'.pcs) == Remaining(s.pcs)
    decreases |acts|
  {
    if acts == [] {
    } else {
      InvStep(s, acts[0]);
      InvRun(Next(s, acts[0]), acts[1..], s');
    }
  }

  lemma Reachable<D>(devices: seq<D>, maxConcurrent: nat, acts: seq<Action<D>>, s: State<D>)
    requires Reaches(Start(devices, maxConcurrent), acts, s)
    ensures Inv(s) && s.snapshot == devices && s.maxConcurrent == maxConcurrent
    ensures Steps(acts) + Remaining(s.pcs) == 4 * |devices|
  {
    StartInv(devices, maxConcurrent);
    InvRun(Start(devices, maxConcurrent), acts, s);
  }

  // --- Results over every schedule ---

  /** Tokens in the channel are the running polls, and never more than the limit. */
  lemma SemaphoreHolds<D>(devices: seq<D>, maxConcurrent: nat, acts: seq<Action<D>>, s: State<D>)
    requires Reaches(Start(devices, maxConcurrent), acts, s)
    ensures s.tokens == Running(s.pcs) <= maxConcurrent
  {
    Reachable(devices, maxConcurrent, acts, s);
  }

  /** No device is polled twice; a finished cycle has polled each device of its snapshot, whatever was reloaded meanwhile. */
  lemma PolledExactlyOnce<D>(devices: seq<D>, maxConcurrent: nat, acts: seq<Action<D>>, s: State<D>)
    requires Reaches(Start(devices, maxConcurrent), acts, s)
    ensures s.snapshot == devices && Distinct(s.order) && forall i :: i in s.order ==> i < |devices|
    ensures Finished(s) ==> s.tokens == 0 && forall i: nat :: i in s.order <==> i < |devices|
  {
    Reachable(devices, maxConcurrent, acts, s);
    if Finished(s) { NoneRemaining(s.pcs); }
  }

  /** The log of polls only grows, at its end: what has been polled stays first, in the order in which it was polled. */
  lemma {:induction false} PolledInOrder<D>(s: State<D>, acts: seq<Action<D>>, s': State<D>)
    requires Reaches(s, acts, s')
    ensures s.order <= s'.order
    decreases |acts|
  {
    if acts == [] {
    } else {
      PolledInOrder(Next(s, acts[0]), acts[1..], s');
    }
  }

  /** As long as the cycle is not over, some goroutine can move. */
  lemma NeverStuck<D>(s: State<D>) returns (a: Action<D>)
    requires Inv(s) && s.maxConcurrent > 0 && !Finished(s)
    ensures Enabled(s, a) && !a.Reload?
  {
    if s.spawned < |s.pcs| {
      return Spawn;
    }
    var i: nat :| i < |s.pcs| && s.pcs[i] != Done;
    if s.pcs[i] == Ready {
      if s.tokens < s.maxConcurrent {
        return Acquire(i);
      }
      i := SomeRunning(s.pcs);
    }
    a := if s.pcs[i] == Holding then Poll(i) else Release(i);
    if s.pcs[i] == Polled { RunningIsPositive(s.pcs, i); }
  }

  lemma {:induction false} RunningIsPositive(pcs: seq<Pc>, i: nat)
    requires i < |pcs| && InPoll(pcs[i])
    ensures Running(pcs) > 0
    decreases |pcs|
  {
    if i == |pcs| - 1 {
    } else {
      RunningIsPositive(pcs[..|pcs| - 1], i);
    }
  }

  /**
   * A cycle ends after four steps per device, reloads aside: in every schedule it has finished exactly when that many
   * have been taken, it can always go on until then, and it can take no further step.
   */
  lemma CycleEnds<D>(devices: seq<D>, maxConcurrent: nat, acts: seq<Action<D>>, s: State<D>)
    requires Reaches(Start(devices, maxConcurrent), acts, s) && maxConcurrent > 0
    ensures Steps(acts) <= 4 * |devices|
    ensures Finished(s) <==> Steps(acts) == 4 * |devices|
    ensures Finished(s) <==> !exists a :: Enabled(s, a) && !a.Reload?
  {
    Reachable(devices, maxConcurrent, acts, s);
    NoneRemaining(s.pcs);
    if !Finished(s) {
      var a := NeverStuck(s);
    } else if a :| Enabled(s, a) && !a.Reload? {
      InvStep(s, a);
    }
  }

  /** No goroutine waits while there is room: it can acquire exactly while fewer than the limit are running. */
  lemma ReadyCanStart<D>(devices: seq<D>, maxConcurrent: nat, acts: seq<Action<D>>, s: State<D>, i: nat)
    requires Reaches(Start(devices, maxConcurrent), acts, s) && i < |s.pcs| && s.pcs[i] == Ready
    ensures Enabled(s, Acquire(i)) <==> Running(s.pcs) < maxConcurrent
  {
    Reachable(devices, maxConcurrent, acts, s);
  }

  lemma {:induction false} ReachesMore<D>(from: State<D>, acts: seq<Action<D>>, to: State<D>, a: Action<D>)
    requires Reaches(from, acts, to) && Enabled(to, a)
    ensures Reaches(from, acts + [a], Next(to, a))
    decreases |acts|
  {
    if acts == [] {
      assert [a][1..] == [];
    } else {
      ReachesMore(Next(from, acts[0]), acts[1..], to, a);
      assert (acts + [a])[1..] == acts[1..] + [a];
    }
  }

  /** For every limit, as many polls as the limit and the devices allow can be running at once. */
  lemma {:induction false} LimitIsReached<D>(devices: seq<D>, maxConcurrent: nat, n: nat) returns (acts: seq<Action<D>>, s: State<D>)
    requires n <= maxConcurrent && n <= |devices|
    ensures Reaches(Start(devices, maxConcurrent), acts, s) && Running(s.pcs) == n
    ensures s.spawned == n && s.order == []
  {
    if n == 0 {
      acts, s := [], Start(devices, maxConcurrent);
      StartCounts(|devices|);
    } else {
      acts, s := LimitIsReached(devices, maxConcurrent, n - 1);
      Reachable(devices, maxConcurrent, acts, s);
      ReachesMore(Start(devices, maxConcurrent), acts, s, Spawn);
      var s1 := Next(s, Spawn);
      CountedStep(s, Spawn);
      ReachesMore(Start(devices, maxConcurrent), acts + [Spawn], s1, Acquire(n - 1));
      CountedStep(s1, Acquire(n - 1));
      acts, s := acts + [Spawn] + [Acquire(n - 1)], Next(s1, Acquire(n - 1));
    }
  }

  /** Without a limit above zero nobody ever gets a token: the cycle finishes only if there was nothing to poll. */
  lemma ZeroLimitBlocks<D>(devices: seq<D>, acts: seq<Action<D>>, s: State<D>)
    requires Reaches(Start(devices, 0), acts, s)
    ensures s.order == [] && (Finished(s) <==> devices == [])
  {
    Reachable(devices, 0, acts, s);
    assert Running(s.pcs) == 0;
    NoToken(devices, acts, s);
  }

  lemma NoToken<D>(devices: seq<D>, acts: seq<Action<D>>, s: State<D>)
    requires Reaches(Start(devices, 0), acts, s)
    ensures forall i :: 0 <= i < |s.pcs| ==> s.pcs[i] in {Unborn, Ready}
    ensures |s.pcs| == |devices| && s.order == []
  {
    StartCounts(|devices|);
    NoTokenFrom(Start(devices, 0), acts, s);
  }

  lemma {:induction false} NoTokenFrom<D>(s: State<D>, acts: seq<Action<D>>, s': State<D>)
    requires Reaches(s, acts, s') && s.maxConcurrent == 0 && s.order == []
    requires forall i :: 0 <= i < |s.pcs| ==> s.pcs[i] in {Unborn, Ready}
    ensures forall i :: 0 <= i < |s'.pcs| ==> s'.pcs[i] in {Unborn, Ready}
    ensures |s'.pcs| == |s.pcs| && s'.order == []
    decreases |acts|
  {
    if acts == [] {
    } else {
      NoTokenFrom(Next(s, acts[0]), acts[1..], s');
    }
  }

  // --- The cycle as the collector runs it ---

  /** A scheduler that always chooses a step that can happen, as long as one can. */
  ghost predicate IsScheduler<D(!new)>(pick: State<D> -> Action<D>) {
    forall s: State<D> :: Inv(s) && !Finished(s) && s.maxConcurrent > 0 ==> Enabled(s, pick(s)) && !pick(s).Reload?
  }

  class IPMICollector<D(!new)> {
    var devices: seq<D>
    const maxConcurrent: nat

    constructor (maxConcurrent: nat)
      ensures devices == [] && this.maxConcurrent == maxConcurrent
    {
      devices, this.maxConcurrent := [], maxConcurrent;
    }

    /** The swap at the end of loadDevices. */
    method LoadDevices(loaded: seq<D>)
      modifies this
      ensures devices == loaded
    {
      devices := loaded;
    }

    /**
     * pollAllDevices under any scheduler `pick` that chooses enabled steps, with reloads of its own in between: the cycle
     * ends, and every device of the list as it stood at the start has entered the poll routine exactly once.
     */
    method PollAllDevices(pick: State<D> -> Action<D>, reloads: nat -> Option<seq<D>>) returns (order: seq<nat>)
      requires maxConcurrent > 0
      requires IsScheduler(pick)
      modifies this
      ensures Distinct(order) && forall i: nat :: i in order <==> i < |old(devices)|
    {
      var s := Start(devices, maxConcurrent);
      StartInv(devices, maxConcurrent);
      var turn := 0;
      while !Finished(s)
        invariant Inv(s) && s.snapshot == old(devices) && s.maxConcurrent == maxConcurrent && s.devices == devices
        decreases Remaining(s.pcs)
      {
        if reloads(turn).Some? {
          var loaded := reloads(turn).value;
          LoadDevices(loaded);
          InvStep(s, Reload(loaded));
          s := s.(devices := loaded);
        }
        assert Inv(s) && !Finished(s) && s.maxConcurrent > 0;
        var a := pick(s);
        assert Enabled(s, a) && !a.Reload?;
        InvStep(s, a);
        s := Next(s, a);
        turn := turn + 1;
      }
      NoneRemaining(s.pcs);
      return s.order;
    }
  }
}
