/**
 * The batching remote-write client (backend/internal/metrics/victoriametrics.go).
 * Writers, the ticker goroutine and callers of Stop take steps in any interleaving; a step is one section that
 * holds the mutex, one HTTP attempt, or one move of a goroutine. What the network answers is part of the step.
 */
module VictoriaMetrics {
  import opened Common

  const MAX_RETRIES: nat := 3

  datatype Thread = Writer(n: nat) | Ticker | Stopper(n: nat)

  datatype Pc =
    | Idle                  // not inside the client, or (ticker) waiting in its select
    | Flushing              // decided to flush, second lock not yet taken
    | Sending(batch: nat)   // holds a batch it took
    | Waiting               // cancelled the context, waiting for the ticker
    | Exited

  datatype Outcome = InFlight | Delivered | Dropped

  datatype Batch<T> = Batch(samples: seq<T>, fails: nat, outcome: Outcome)

  /** The buffer and the goroutines, with two logs: everything appended, and every batch taken, in order. */
  datatype State<T> = State(
    batchSize: int, buffer: seq<T>, pcs: map<Thread, Pc>, started: bool, cancelled: bool,
    appended: seq<T>, batches: seq<Batch<T>>)

  datatype Action<T> =
    | Start
    | Write(w: nat, x: T)
    | Tick
    | Flush(t: Thread)
    | Send(t: Thread, ok: bool)
    | Stop(n: nat)
    | TickerExits
    | Join(n: nat)

  function Init<T>(batchSize: int): State<T> {
    State(batchSize, [], map[], false, false, [], [])
  }

  function PcOf<T>(s: State<T>, t: Thread): Pc {
    if t in s.pcs then s.pcs[t] else Idle
  }

  function Return(t: Thread): Pc {
    if t.Stopper? then Exited else Idle
  }

  /** When a step can happen. The request carries the client's context, so after Stop no attempt succeeds. */
  ghost predicate Enabled<T>(s: State<T>, a: Action<T>) {
    match a
    case Start => !s.started
    case Write(w, _) => PcOf(s, Writer(w)) == Idle
    case Tick => s.started && PcOf(s, Ticker) == Idle
    case Flush(t) => PcOf(s, t) == Flushing
    case Send(t, ok) => PcOf(s, t).Sending? && PcOf(s, t).batch < |s.batches| && (ok ==> !s.cancelled)
    case Stop(n) => PcOf(s, Stopper(n)) == Idle
    case TickerExits => s.started && s.cancelled && PcOf(s, Ticker) == Idle
    case Join(n) => PcOf(s, Stopper(n)) == Waiting && (s.started ==> PcOf(s, Ticker) == Exited)
  }

  function Go<T>(s: State<T>, t: Thread, pc: Pc): State<T> {
    s.(pcs := s.pcs[t := pc])
  }

  /** First locked section of WriteMetric. */
  function WriteStep<T>(s: State<T>, w: nat, x: T): State<T> {
    var s' := s.(buffer := s.buffer + [x], appended := s.appended + [x]);
    Go(s', Writer(w), if |s'.buffer| >= s.batchSize then Flushing else Idle)
  }

  /** Locked section of flush: nothing to do, or the whole buffer becomes a batch. */
  function FlushStep<T>(s: State<T>, t: Thread): State<T> {
    if s.buffer == [] then Go(s, t, Return(t))
    else Go(s.(buffer := [], batches := s.batches + [Batch(s.buffer, 0, InFlight)]), t, Sending(|s.batches|))
  }

  /** One turn of the retry loop. */
  function SendStep<T>(s: State<T>, t: Thread, ok: bool): State<T>
    requires PcOf(s, t).Sending? && PcOf(s, t).batch < |s.batches|
  {
    var i := PcOf(s, t).batch;
    var b := Attempted(s.batches[i], ok);
    var s' := s.(batches := s.batches[i := b]);
    if b.outcome == InFlight then s' else Go(s', t, Return(t))
  }

  function Next<T>(s: State<T>, a: Action<T>): State<T>
    requires a.Send? ==> PcOf(s, a.t).Sending? && PcOf(s, a.t).batch < |s.batches|
  {
    match a
    case Start => s.(started := true)
    case Write(w, x) => WriteStep(s, w, x)
    case Tick => Go(s, Ticker, Flushing)
    case Flush(t) => FlushStep(s, t)
    case Send(t, ok) => SendStep(s, t, ok)
    case Stop(n) => Go(s.(cancelled := true), Stopper(n), Waiting)
    case TickerExits => Go(s, Ticker, Exited)
    case Join(n) => Go(s, Stopper(n), Flushing)
  }

  /** One HTTP attempt of the retry loop. */
  function Attempted<T>(b: Batch<T>, ok: bool): Batch<T> {
    if ok then b.(outcome := Delivered)
    else b.(fails := b.fails + 1, outcome := if b.fails + 1 >= MAX_RETRIES then Dropped else InFlight)
  }

  /** `to` is where some interleaving of the actions `acts` leads from `from`. */
  ghost predicate Reaches<T>(from: State<T>, acts: seq<Action<T>>, to: State<T>)
    decreases |acts|
  {
    if acts == [] then from == to
    else Enabled(from, acts[0]) && Reaches(Next(from, acts[0]), acts[1..], to)
  }

  function Flatten<T>(bs: seq<Batch<T>>): seq<T>
    decreases |bs|
  {
    if bs == [] then [] else Flatten(bs[..|bs| - 1]) + bs[|bs| - 1].samples
  }

  // --- What every step keeps ---

  /** Samples are conserved, in order. */
  ghost predicate Conserved<T>(s: State<T>) {
    Flatten(s.batches) + s.buffer == s.appended
  }

  /** A batch is in flight, or delivered after fewer than three failures, or dropped after exactly three. */
  ghost predicate Fate<T>(b: Batch<T>) {
    && b.samples != []
    && match b.outcome
       case Dropped => b.fails == MAX_RETRIES
       case _ => b.fails < MAX_RETRIES
  }

  ghost predicate Fates<T>(s: State<T>) {
    forall i :: 0 <= i < |s.batches| ==> Fate(s.batches[i])
  }

  /** Threads that send hold batches in flight, no two of them the same one. */
  ghost predicate HoldsApart<T>(s: State<T>) {
    && (forall t :: t in s.pcs && s.pcs[t].Sending? ==>
          s.pcs[t].batch < |s.batches| && s.batches[s.pcs[t].batch].outcome == InFlight)
    && (forall t, u :: t in s.pcs && u in s.pcs && s.pcs[t].Sending? && s.pcs[t] == s.pcs[u] ==> t == u)
  }

  ghost predicate Holds(pcs: map<Thread, Pc>, t: Thread, i: nat) {
    t in pcs && pcs[t] == Sending(i)
  }

  /** No batch in flight has been forgotten. */
  ghost predicate Held<T>(s: State<T>) {
    forall i :: 0 <= i < |s.batches| && s.batches[i].outcome == InFlight ==> exists t :: Holds(s.pcs, t, i)
  }

  /** The writers that have seen a full buffer and not yet flushed. */
  ghost function Pending(pcs: map<Thread, Pc>): set<Thread> {
    set t | t in pcs && t.Writer? && pcs[t] == Flushing
  }

  /** The buffer exceeds batchSize - 1 by no more than the number of pending writers. */
  ghost predicate Bounded<T>(s: State<T>) {
    |s.buffer| - (Max(s.batchSize, 1) - 1) <= |Pending(s.pcs)|
  }

  ghost predicate Inv<T>(s: State<T>) {
    Conserved(s) && Fates(s) && HoldsApart(s) && Held(s) && Bounded(s)
  }

  lemma FlattenAppend<T>(bs: seq<Batch<T>>, b: Batch<T>)
    ensures Flatten(bs + [b]) == Flatten(bs) + b.samples
  {
    assert (bs + [b])[..|bs|] == bs;
  }

  lemma {:induction false} FlattenUpdate<T>(bs: seq<Batch<T>>, i: nat, b: Batch<T>)
    requires i < |bs| && b.samples == bs[i].samples
    ensures Flatten(bs[i := b]) == Flatten(bs)
    decreases |bs|
  {
    var last := |bs| - 1;
    if i < last {
      FlattenUpdate(bs[..last], i, b);
      assert bs[i := b][..last] == bs[..last][i := b];
    } else {
      assert bs[i := b][..last] == bs[..last];
    }
  }

  lemma PendingAfter(pcs: map<Thread, Pc>, t: Thread, pc: Pc)
    ensures Pending(pcs[t := pc]) == if t.Writer? && pc == Flushing then Pending(pcs) + {t} else Pending(pcs) - {t}
  {}

  /** The thread that held batch `i`, or the new one, holds it after a thread's move. */
  lemma HeldAfter<T>(s: State<T>, s': State<T>, mover: Thread)
    requires HoldsApart(s) && Held(s)
    requires forall t :: t != mover ==> (t in s'.pcs <==> t in s.pcs) && (t in s.pcs ==> s'.pcs[t] == s.pcs[t])
    requires |s.batches| <= |s'.batches|
    requires forall i :: 0 <= i < |s.batches| && s'.batches[i].outcome == InFlight ==> s.batches[i].outcome == InFlight
    requires forall i: nat :: i < |s'.batches| && s'.batches[i].outcome == InFlight && (i >= |s.batches| || Holds(s.pcs, mover, i))
               ==> Holds(s'.pcs, mover, i)
    ensures Held(s')
  {
    forall i: nat | i < |s'.batches| && s'.batches[i].outcome == InFlight
      ensures exists t :: Holds(s'.pcs, t, i)
    {
      if i < |s.batches| {
        var t :| Holds(s.pcs, t, i);
        assert Holds(s'.pcs, t, i);
      } else {
        assert Holds(s'.pcs, mover, i);
      }
    }
  }

  /** A goroutine that neither holds a batch nor owes a flush may move anywhere that is not sending. */
  lemma MoveKeeps<T>(s: State<T>, t: Thread, pc: Pc)
    requires Inv(s) && !PcOf(s, t).Sending? && !pc.Sending? && !t.Writer?
    ensures Inv(Go(s, t, pc))
  {
    PendingAfter(s.pcs, t, pc);
    HeldAfter(s, Go(s, t, pc), t);
  }

  lemma WriteBounded<T>(s: State<T>, w: nat, x: T)
    requires Bounded(s) && PcOf(s, Writer(w)) == Idle
    ensures Bounded(WriteStep(s, w, x))
  {
    PendingAfter(s.pcs, Writer(w), PcOf(WriteStep(s, w, x), Writer(w)));
  }

  lemma WriteKeeps<T>(s: State<T>, w: nat, x: T)
    requires Inv(s) && PcOf(s, Writer(w)) == Idle
    ensures Inv(WriteStep(s, w, x))
  {
    WriteBounded(s, w, x);
    HeldAfter(s, WriteStep(s, w, x), Writer(w));
    assert Flatten(s.batches) + (s.buffer + [x]) == (Flatten(s.batches) + s.buffer) + [x];
  }

  lemma TakeKeeps<T>(s: State<T>, t: Thread)
    requires Inv(s) && PcOf(s, t) == Flushing && s.buffer != []
    ensures Inv(FlushStep(s, t))
  {
    var s', b := FlushStep(s, t), Batch(s.buffer, 0, InFlight);
    FlattenAppend(s.batches, b);
    assert Conserved(s');
    assert Fates(s');
    assert HoldsApart(s');
    HeldAfter(s, s', t);
  }

  lemma FlushKeeps<T>(s: State<T>, t: Thread)
    requires Inv(s) && PcOf(s, t) == Flushing
    ensures Inv(FlushStep(s, t))
  {
    if s.buffer == [] {
      HeldAfter(s, FlushStep(s, t), t);
    } else {
      TakeKeeps(s, t);
    }
  }

  /** The batch list after an attempt on batch `i`. */
  lemma AttemptKeeps<T>(s: State<T>, i: nat, ok: bool)
    requires Conserved(s) && Fates(s) && i < |s.batches| && s.batches[i].outcome == InFlight
    ensures var s' := s.(batches := s.batches[i := Attempted(s.batches[i], ok)]);
            Conserved(s') && Fates(s')
  {
    assert Fate(s.batches[i]);
    FlattenUpdate(s.batches, i, Attempted(s.batches[i], ok));
  }

  lemma SendKeeps<T>(s: State<T>, t: Thread, ok: bool)
    requires Inv(s) && PcOf(s, t).Sending? && PcOf(s, t).batch < |s.batches|
    ensures Inv(SendStep(s, t, ok))
  {
    var i, s' := PcOf(s, t).batch, SendStep(s, t, ok);
    assert Holds(s.pcs, t, i);
    AttemptKeeps(s, i, ok);
    assert HoldsApart(s');
    SendBounded(s, t, ok);
    HeldAfter(s, s', t);
  }

  lemma SendBounded<T>(s: State<T>, t: Thread, ok: bool)
    requires Bounded(s) && PcOf(s, t).Sending? && PcOf(s, t).batch < |s.batches|
    ensures Bounded(SendStep(s, t, ok))
  {
    PendingAfter(s.pcs, t, Return(t));
    assert Pending(s.pcs) - {t} == Pending(s.pcs);
  }

  lemma InvStep<T>(s: State<T>, a: Action<T>)
    requires Inv(s) && Enabled(s, a)
    ensures Inv(Next(s, a))
  {
    match a
    case Start =>
    case Write(w, x) => WriteKeeps(s, w, x);
    case Tick => MoveKeeps(s, Ticker, Flushing);
    case Flush(t) => FlushKeeps(s, t);
    case Send(t, ok) => SendKeeps(s, t, ok);
    case Stop(n) =>
      assert Inv(s.(cancelled := true));
      MoveKeeps(s.(cancelled := true), Stopper(n), Waiting);
    case TickerExits => MoveKeeps(s, Ticker, Exited);
    case Join(n) => MoveKeeps(s, Stopper(n), Flushing);
  }

  lemma {:induction false} InvRun<T>(s: State<T>, acts: seq<Action<T>>, s': State<T>)
    requires Inv(s) && Reaches(s, acts, s')
    ensures Inv(s')
    decreases |acts|
  {
    if acts == [] {
    } else {
      InvStep(s, acts[0]);
      InvRun(Next(s, acts[0]), acts[1..], s');
    }
  }

  // --- Results over every interleaving ---

  /** Taken batches in take order, then the buffer, are exactly what was appended, in order. */
  lemma NothingLostOrReordered<T>(batchSize: int, acts: seq<Action<T>>, s: State<T>)
    requires Reaches(Init(batchSize), acts, s)
    ensures Flatten(s.batches) + s.buffer == s.appended
  {
    InvRun(Init(batchSize), acts, s);
  }

  /** Every batch ever taken is held by one thread, or delivered, or dropped after exactly three failed attempts. */
  lemma EveryBatchHasOneFate<T>(batchSize: int, acts: seq<Action<T>>, s: State<T>, i: nat)
    requires Reaches(Init(batchSize), acts, s) && i < |s.batches|
    ensures match s.batches[i].outcome
            case InFlight => s.batches[i].fails < 3 && exists t :: Holds(s.pcs, t, i)
            case Delivered => s.batches[i].fails < 3
            case Dropped => s.batches[i].fails == 3
    ensures forall t, u :: Holds(s.pcs, t, i) && Holds(s.pcs, u, i) ==> t == u
  {
    InvRun(Init(batchSize), acts, s);
    assert Fate(s.batches[i]);
  }

  /** A writer sets out to flush exactly when its sample makes the buffer full, and is done otherwise. */
  lemma WriteDecides<T>(s: State<T>, w: nat, x: T)
    requires Enabled(s, Write(w, x))
    ensures PcOf(Next(s, Write(w, x)), Writer(w)) == if |s.buffer| + 1 >= s.batchSize then Flushing else Idle
    ensures forall t :: t != Writer(w) ==> PcOf(Next(s, Write(w, x)), t) == PcOf(s, t)
  {}

  /** Steps without a tick, a flush by Stop, or a second writer. */
  predicate SoloStep<T>(a: Action<T>, w: nat) {
    match a
    case Write(v, _) => v == w
    case Tick => false
    case Join(_) => false
    case _ => true
  }

  /** Only writer `w` flushes and sends, and it does so with exactly a full buffer. */
  ghost predicate Solo<T>(s: State<T>, w: nat) {
    && (forall t :: t in s.pcs && (s.pcs[t] == Flushing || s.pcs[t].Sending?) ==> t == Writer(w))
    && (forall i :: 0 <= i < |s.batches| ==> |s.batches[i].samples| == Max(s.batchSize, 1))
    && (if PcOf(s, Writer(w)) == Flushing then |s.buffer| == Max(s.batchSize, 1) else |s.buffer| < Max(s.batchSize, 1))
  }

  lemma SoloKeeps<T>(s: State<T>, a: Action<T>, w: nat)
    requires Solo(s, w) && Enabled(s, a) && SoloStep(a, w)
    ensures Solo(Next(s, a), w)
  {
    match a
    case Write(_, x) => WriteDecides(s, w, x);
    case _ =>
  }

  lemma {:induction false} SoloRun<T>(s: State<T>, acts: seq<Action<T>>, s': State<T>, w: nat)
    requires Solo(s, w) && Reaches(s, acts, s') && forall a :: a in acts ==> SoloStep(a, w)
    ensures Solo(s', w)
    decreases |acts|
  {
    if acts == [] {
    } else {
      SoloKeeps(s, acts[0], w);
      SoloRun(Next(s, acts[0]), acts[1..], s', w);
    }
  }

  /** With one writer, no tick and no flush by Stop, every batch ever taken holds exactly a full buffer. */
  lemma SoloBatchesAreFull<T>(batchSize: int, w: nat, acts: seq<Action<T>>, s: State<T>, i: nat)
    requires Reaches(Init(batchSize), acts, s) && forall a :: a in acts ==> SoloStep(a, w)
    ensures i < |s.batches| ==> |s.batches[i].samples| == Max(batchSize, 1)
    ensures |s.buffer| <= Max(batchSize, 1)
  {
    SoloRun(Init(batchSize), acts, s, w);
    BatchSizeFixed(Init(batchSize), acts, s);
  }

  /** A full buffer always has a writer on its way to flush it. */
  lemma FullBufferHasFlusher<T>(batchSize: int, acts: seq<Action<T>>, s: State<T>)
    requires Reaches(Init(batchSize), acts, s) && s.buffer != [] && |s.buffer| >= batchSize
    ensures exists w :: Writer(w) in s.pcs && s.pcs[Writer(w)] == Flushing
    ensures |s.buffer| - (Max(batchSize, 1) - 1) <= |Pending(s.pcs)|
  {
    InvRun(Init(batchSize), acts, s);
    BatchSizeFixed(Init(batchSize), acts, s);
    assert Pending(s.pcs) != {};
    var t :| t in Pending(s.pcs);
    assert Writer(t.n) in s.pcs;
  }

  lemma {:induction false} BatchSizeFixed<T>(s: State<T>, acts: seq<Action<T>>, s': State<T>)
    requires Reaches(s, acts, s')
    ensures s'.batchSize == s.batchSize
    decreases |acts|
  {
    if acts == [] {
    } else {
      BatchSizeFixed(Next(s, acts[0]), acts[1..], s');
    }
  }

  // --- Stop ---

  function DeliveredOf<T>(bs: seq<Batch<T>>): seq<T>
    decreases |bs|
  {
    if bs == [] then [] else
      var before, last := DeliveredOf(bs[..|bs| - 1]), bs[|bs| - 1];
      if last.outcome == Delivered then before + last.samples else before
  }

  lemma {:induction false} DeliveredUpdate<T>(bs: seq<Batch<T>>, i: nat, b: Batch<T>)
    requires i < |bs| && bs[i].outcome != Delivered && b.outcome != Delivered
    ensures DeliveredOf(bs[i := b]) == DeliveredOf(bs)
    decreases |bs|
  {
    var last := |bs| - 1;
    if i < last {
      DeliveredUpdate(bs[..last], i, b);
      assert bs[i := b][..last] == bs[..last][i := b];
    } else {
      assert bs[i := b][..last] == bs[..last];
    }
  }

  lemma NothingDeliveredInStep<T>(s: State<T>, a: Action<T>)
    requires Inv(s) && s.cancelled && Enabled(s, a)
    ensures Next(s, a).cancelled && s.appended <= Next(s, a).appended
    ensures DeliveredOf(Next(s, a).batches) == DeliveredOf(s.batches)
  {
    match a
    case Flush(t) =>
      var b := Batch(s.buffer, 0, InFlight);
      assert (s.batches + [b])[..|s.batches|] == s.batches;
    case Send(t, ok) =>
      var i := PcOf(s, t).batch;
      assert Holds(s.pcs, t, i);
      DeliveredUpdate(s.batches, i, Attempted(s.batches[i], ok));
    case _ =>
  }

  /** Once Stop has cancelled the context nothing more is delivered: not the batches in flight, not the final flush. */
  lemma {:induction false} NothingDeliveredAfterStop<T>(s: State<T>, acts: seq<Action<T>>, s': State<T>)
    requires Inv(s) && s.cancelled && Reaches(s, acts, s')
    ensures s'.cancelled && DeliveredOf(s'.batches) == DeliveredOf(s.batches) && s.appended <= s'.appended
    decreases |acts|
  {
    if acts == [] {
    } else {
      NothingDeliveredInStep(s, acts[0]);
      InvStep(s, acts[0]);
      NothingDeliveredAfterStop(Next(s, acts[0]), acts[1..], s');
    }
  }

  lemma {:induction false} AllDeliveredIff<T>(bs: seq<Batch<T>>)
    requires forall i :: 0 <= i < |bs| ==> Fate(bs[i])
    ensures |DeliveredOf(bs)| <= |Flatten(bs)|
    ensures |DeliveredOf(bs)| == |Flatten(bs)| <==> forall i :: 0 <= i < |bs| ==> bs[i].outcome == Delivered
    ensures |DeliveredOf(bs)| == |Flatten(bs)| ==> DeliveredOf(bs) == Flatten(bs)
    decreases |bs|
  {
    if bs == [] {
    } else {
      AllDeliveredIff(bs[..|bs| - 1]);
      assert Fate(bs[|bs| - 1]);
    }
  }

  /**
   * Stop means to flush what is left, but its flush runs on the context it has just cancelled. So a run that goes on
   * after the cancellation delivers everything that was ever appended exactly when, at the cancellation, the buffer was
   * empty and every batch already delivered, and nobody appended afterwards.
   */
  lemma StopDeliversEverythingIff<T>(batchSize: int, before: seq<Action<T>>, s: State<T>, acts: seq<Action<T>>, s': State<T>)
    requires Reaches(Init(batchSize), before, s) && s.cancelled && Reaches(s, acts, s')
    ensures DeliveredOf(s'.batches) == s'.appended <==>
              && s.buffer == []
              && (forall i :: 0 <= i < |s.batches| ==> s.batches[i].outcome == Delivered)
              && s'.appended == s.appended
  {
    InvRun(Init(batchSize), before, s);
    NothingDeliveredAfterStop(s, acts, s');
    AllDeliveredIff(s.batches);
    assert |s.appended| == |Flatten(s.batches)| + |s.buffer|;
  }

  // --- Stop returns ---

  /** The steps a thread of Stop or the ticker still has to take: exit, join, flush, and three attempts. */
  function ToGo<T>(s: State<T>, t: Thread): int {
    var exit := if t == Ticker then 1 else 0;
    match PcOf(s, t)
    case Idle => 1
    case Flushing => 4 + exit
    case Sending(i) => exit + (if i < |s.batches| then MAX_RETRIES - s.batches[i].fails else 0)
    case Waiting => 5
    case Exited => 0
  }

  /** What the n-th Stop waits for, and its own steps. */
  function StopToGo<T>(s: State<T>, n: nat): int {
    ToGo(s, Stopper(n)) + (if s.started then ToGo(s, Ticker) else 0)
  }

  predicate StopStep<T>(a: Action<T>, n: nat) {
    match a
    case Flush(t) => t == Ticker || t == Stopper(n)
    case Send(t, _) => t == Ticker || t == Stopper(n)
    case TickerExits => true
    case Join(k) => k == n
    case _ => false
  }

  function StopSteps<T>(acts: seq<Action<T>>, n: nat): nat {
    if acts == [] then 0 else (if StopStep(acts[0], n) then 1 else 0) + StopSteps(acts[1..], n)
  }

  /** Ticks that win against the cancelled context, and a Start that comes late. */
  function Ticks<T>(acts: seq<Action<T>>): nat {
    if acts == [] then 0 else (if acts[0].Tick? || acts[0].Start? then 1 else 0) + Ticks(acts[1..])
  }

  /** The ticker waits for no one, and does nothing before it is started. */
  ghost predicate TickerRole<T>(s: State<T>) {
    PcOf(s, Ticker) != Waiting && (!s.started ==> PcOf(s, Ticker) == Idle)
  }

  /** The n-th Stop has been called. */
  ghost predicate Stopping<T>(s: State<T>, n: nat) {
    s.cancelled && PcOf(s, Stopper(n)) != Idle && TickerRole(s)
  }

  lemma ToGoBounds<T>(s: State<T>, t: Thread)
    requires Inv(s)
    ensures 0 <= ToGo(s, t) <= 5 && (ToGo(s, t) == 0 <==> PcOf(s, t) == Exited)
  {
    if PcOf(s, t).Sending? {
      assert Fate(s.batches[PcOf(s, t).batch]);
    }
  }

  /** A step of another thread does not touch what a thread has to do. */
  lemma ToGoOfOthers<T>(s: State<T>, a: Action<T>, t: Thread)
    requires Inv(s) && Enabled(s, a)
    requires PcOf(Next(s, a), t) == PcOf(s, t) && (a.Send? ==> a.t != t)
    ensures ToGo(Next(s, a), t) == ToGo(s, t)
  {
    if a.Send? && PcOf(s, t).Sending? {
      assert Holds(s.pcs, t, PcOf(s, t).batch) && Holds(s.pcs, a.t, PcOf(s, a.t).batch);
    }
  }

  /** After the cancellation an attempt takes its thread one step nearer to the end. */
  lemma SendToGo<T>(s: State<T>, t: Thread, ok: bool)
    requires Inv(s) && s.cancelled && Enabled(s, Send(t, ok))
    ensures ToGo(Next(s, Send(t, ok)), t) <= ToGo(s, t) - (if t.Writer? then 0 else 1)
  {
    assert Fate(s.batches[PcOf(s, t).batch]);
  }

  lemma StopProgress<T>(s: State<T>, a: Action<T>, n: nat)
    requires Inv(s) && Stopping(s, n) && Enabled(s, a)
    ensures Stopping(Next(s, a), n)
    ensures StopToGo(Next(s, a), n) + (if StopStep(a, n) then 1 else 0)
         <= StopToGo(s, n) + (if a.Tick? || a.Start? then 4 else 0)
  {
    var s' := Next(s, a);
    if PcOf(s', Stopper(n)) == PcOf(s, Stopper(n)) && (a.Send? ==> a.t != Stopper(n)) { ToGoOfOthers(s, a, Stopper(n)); }
    if PcOf(s', Ticker) == PcOf(s, Ticker) && (a.Send? ==> a.t != Ticker) { ToGoOfOthers(s, a, Ticker); }
    if a.Send? { SendToGo(s, a.t, a.ok); }
  }

  /** As long as Stop has not returned, it or the ticker it waits for can take a step. */
  lemma StopCanGoOn<T>(s: State<T>, n: nat) returns (a: Action<T>)
    requires Inv(s) && Stopping(s, n) && PcOf(s, Stopper(n)) != Exited
    ensures StopStep(a, n) && Enabled(s, a)
  {
    var t := if PcOf(s, Stopper(n)) == Waiting && s.started && PcOf(s, Ticker) != Exited then Ticker else Stopper(n);
    match PcOf(s, t)
    case Idle => a := TickerExits;
    case Flushing => a := Flush(t);
    case Sending(_) => a := Send(t, false);
    case Waiting => a := Join(n);
    case Exited => a := Join(n);
  }

  lemma {:induction false} StopProgressRun<T>(s: State<T>, acts: seq<Action<T>>, s': State<T>, n: nat)
    requires Inv(s) && Stopping(s, n) && Reaches(s, acts, s')
    ensures Inv(s') && Stopping(s', n) && StopSteps(acts, n) + StopToGo(s', n) <= StopToGo(s, n) + 4 * Ticks(acts)
    decreases |acts|
  {
    if acts == [] {
    } else {
      StopProgress(s, acts[0], n);
      InvStep(s, acts[0]);
      StopProgressRun(Next(s, acts[0]), acts[1..], s', n);
    }
  }

  lemma TickerRoleStep<T>(s: State<T>, a: Action<T>)
    requires TickerRole(s) && Enabled(s, a)
    ensures TickerRole(Next(s, a))
  {}

  lemma {:induction false} TickerRoleRun<T>(s: State<T>, acts: seq<Action<T>>, s': State<T>)
    requires Reaches(s, acts, s') && TickerRole(s)
    ensures TickerRole(s')
    decreases |acts|
  {
    if acts == [] {
    } else {
      TickerRoleStep(s, acts[0]);
      TickerRoleRun(Next(s, acts[0]), acts[1..], s');
    }
  }

  /**
   * Stop returns. In every schedule after a call, Stop and the ticker take at most ten steps between them, and at most
   * four more for each tick that the ticker still prefers to the cancelled context; and until Stop has returned one of the
   * two can go on, whatever writers and other callers of Stop do.
   */
  lemma StopReturns<T>(batchSize: int, before: seq<Action<T>>, s: State<T>, n: nat, acts: seq<Action<T>>, s': State<T>)
    requires Reaches(Init(batchSize), before, s) && Enabled(s, Stop(n)) && Reaches(Next(s, Stop(n)), acts, s')
    ensures StopSteps(acts, n) <= 10 + 4 * Ticks(acts)
    ensures PcOf(s', Stopper(n)) == Exited || exists a :: StopStep(a, n) && Enabled(s', a)
  {
    var called := Next(s, Stop(n));
    InvRun(Init(batchSize), before, s);
    InvStep(s, Stop(n));
    TickerRoleRun(Init(batchSize), before, s);
    StopProgressRun(called, acts, s', n);
    StopToGoBounds(called, n);
    StopToGoBounds(s', n);
    if PcOf(s', Stopper(n)) != Exited {
      var a := StopCanGoOn(s', n);
    }
  }

  lemma StopToGoBounds<T>(s: State<T>, n: nat)
    requires Inv(s) && TickerRole(s)
    ensures 0 <= StopToGo(s, n) <= 10
  {
    ToGoBounds(s, Ticker);
    ToGoBounds(s, Stopper(n));
  }

  /** A started ticker has exited before Stop flushes. */
  ghost predicate JoinedAfterTicker<T>(s: State<T>) {
    && s.started
    && forall n :: Stopper(n) in s.pcs && s.pcs[Stopper(n)] != Waiting && s.pcs[Stopper(n)] != Idle ==> PcOf(s, Ticker) == Exited
  }

  lemma JoinedStep<T>(s: State<T>, a: Action<T>)
    requires JoinedAfterTicker(s) && Enabled(s, a)
    ensures JoinedAfterTicker(Next(s, a))
  {
    match a
    case Stop(n) => assert PcOf(Next(s, a), Stopper(n)) == Waiting;
    case _ =>
  }

  lemma {:induction false} JoinedRun<T>(s: State<T>, acts: seq<Action<T>>, s': State<T>)
    requires JoinedAfterTicker(s) && Reaches(s, acts, s')
    ensures JoinedAfterTicker(s')
    decreases |acts|
  {
    if acts == [] {
    } else {
      JoinedStep(s, acts[0]);
      JoinedRun(Next(s, acts[0]), acts[1..], s');
    }
  }

  /** Stop waits: in every run of a started client, a Stop that is past its wait finds the ticker gone. */
  lemma StopWaitsForTicker<T>(batchSize: int, acts: seq<Action<T>>, s: State<T>, n: nat)
    requires Reaches(Next(Init(batchSize), Start), acts, s)
    requires PcOf(s, Stopper(n)) == Flushing || PcOf(s, Stopper(n)).Sending? || PcOf(s, Stopper(n)) == Exited
    ensures PcOf(s, Ticker) == Exited
  {
    JoinedRun(Next(Init(batchSize), Start), acts, s);
  }

  // --- A run in which Stop loses a sample ---

  lemma {:induction false} ReachesMore<T>(from: State<T>, acts: seq<Action<T>>, to: State<T>, a: Action<T>)
    requires Reaches(from, acts, to) && Enabled(to, a)
    ensures Reaches(from, acts + [a], Next(to, a))
    decreases |acts|
  {
    if acts == [] {
      assert [a][1..] == [];
    } else {
      ReachesMore(Next(from, acts[0]), acts[1..], to, a);
      assert (acts + [a])[1..] == acts[1..] + [a];
    }
  }

  /** A batch that fails until it is dropped. */
  lemma FailThrice<T>(from: State<T>, acts: seq<Action<T>>, s: State<T>, t: Thread) returns (acts': seq<Action<T>>, s': State<T>)
    requires Reaches(from, acts, s) && PcOf(s, t).Sending? && PcOf(s, t).batch < |s.batches|
    requires var b := s.batches[PcOf(s, t).batch]; b.fails == 0 && b.outcome == InFlight
    ensures Reaches(from, acts', s')
    ensures var i := PcOf(s, t).batch; s' == Go(s.(batches := s.batches[i := s.batches[i].(fails := 3, outcome := Dropped)]), t, Return(t))
  {
    var i, a := PcOf(s, t).batch, Send(t, false);
    ReachesMore(from, acts, s, a);
    var s1 := Next(s, a);
    assert s1.batches[i] == s.batches[i].(fails := 1);
    ReachesMore(from, acts + [a], s1, a);
    var s2 := Next(s1, a);
    assert s2.batches[i] == s.batches[i].(fails := 2);
    ReachesMore(from, acts + [a] + [a], s2, a);
    acts', s' := acts + [a] + [a] + [a], Next(s2, a);
    assert s'.batches == s.batches[i := s.batches[i].(fails := 3, outcome := Dropped)];
  }

  /** For every batch size: one sample is written, Stop is called and returns, and the sample is gone. */
  lemma StopLosesSample<T>(batchSize: int, x: T) returns (acts: seq<Action<T>>, s: State<T>)
    ensures Reaches(Init(batchSize), acts, s) && PcOf(s, Stopper(0)) == Exited
    ensures s.appended == [x] && s.buffer == [] && s.batches == [Batch([x], 3, Dropped)] && DeliveredOf(s.batches) == []
  {
    var s0: State<T> := Init(batchSize);
    var s1 := Next(s0, Write(0, x));
    var s2 := Next(s1, Stop(0));
    var s3 := Next(s2, Join(0));
    var s4 := Next(s3, Flush(Stopper(0)));
    ReachesMore(s0, [], s0, Write(0, x));
    ReachesMore(s0, [] + [Write(0, x)], s1, Stop(0));
    ReachesMore(s0, [] + [Write(0, x)] + [Stop(0)], s2, Join(0));
    ReachesMore(s0, [] + [Write(0, x)] + [Stop(0)] + [Join(0)], s3, Flush(Stopper(0)));
    assert s3.buffer == [x];
    assert s4.batches == [Batch([x], 0, InFlight)];
    acts, s := FailThrice(s0, [] + [Write(0, x)] + [Stop(0)] + [Join(0)] + [Flush(Stopper(0))], s4, Stopper(0));
    assert s.batches[..0] == [];
  }

  // --- The client itself ---

  /**
   * The client's memory. The buffer is the first `len` cells of `backing`, which flush empties without giving it up;
   * `held` remembers the array of every batch ever taken.
   */
  class VictoriaMetricsWriter<T(0)> {
    var backing: array<T>
    var len: nat
    const batchSize: nat
    ghost var state: State<T>
    ghost var held: seq<array<T>>

    /** No array of a batch is the backing array, and each still reads as it did when it was taken. */
    ghost predicate Valid()
      reads this, backing, held
    {
      && len <= backing.Length
      && state.batchSize == batchSize
      && state.buffer == backing[..len]
      && |held| == |state.batches|
      && forall i :: 0 <= i < |held| ==> held[i] != backing && held[i][..] == state.batches[i].samples
    }

    constructor (batchSize: nat)
      ensures Valid() && state == Init(batchSize)
    {
      this.batchSize := batchSize;
      backing, len := new T[batchSize], 0;
      state, held := Init(batchSize), [];
    }

    /** The locked section of WriteMetric; a full backing array is replaced by a larger copy. */
    method Append(ghost w: nat, x: T) returns (shouldFlush: bool)
      requires Valid() && Enabled(state, Write(w, x))
      modifies this, backing
      ensures Valid() && held == old(held)
      ensures state == Next(old(state), Write(w, x))
      ensures shouldFlush <==> PcOf(state, Writer(w)) == Flushing
      ensures shouldFlush <==> |state.buffer| >= batchSize
    {
      if len == backing.Length {
        var larger := new T[2 * len + 1];
        forall i | 0 <= i < len {
          larger[i] := backing[i];
        }
        assert larger[..len] == backing[..len];
        backing := larger;
      }
      backing[len] := x;
      len := len + 1;
      assert backing[..len] == old(state.buffer) + [x];
      state := WriteStep(state, w, x);
      return len >= batchSize;
    }

    /** The locked section of flush: copy the buffer out, and start over at the front of the same backing array. */
    method Take(ghost t: Thread) returns (toSend: array?<T>)
      requires Valid() && Enabled(state, Flush(t))
      modifies this
      ensures Valid() && backing == old(backing)
      ensures state == Next(old(state), Flush(t))
      ensures toSend == null <==> old(state).buffer == []
      ensures toSend == null ==> held == old(held)
      ensures toSend != null ==> fresh(toSend) && held == old(held) + [toSend] && PcOf(state, t) == Sending(|old(held)|)
    {
      if len == 0 {
        state := FlushStep(state, t);
        return null;
      }
      var copy := new T[len];
      forall i | 0 <= i < len {
        copy[i] := backing[i];
      }
      assert copy[..] == state.buffer;
      state := FlushStep(state, t);
      held := held + [copy];
      len := 0;
      return copy;
    }

    /** One attempt: what goes out is the batch as it was taken, whatever has been appended or flushed since. */
    method Attempt(ghost t: Thread, toSend: array<T>, accepted: bool) returns (payload: seq<T>)
      requires Valid() && Enabled(state, Send(t, accepted)) && held[PcOf(state, t).batch] == toSend
      modifies this`state
      ensures Valid() && state == Next(old(state), Send(t, accepted))
      ensures payload == old(state).batches[PcOf(old(state), t).batch].samples
    {
      payload := toSend[..];
      state := SendStep(state, t, accepted);
    }
  }

  /** A batch after attempts 0 to k - 1. */
  ghost function AfterAttempts<T>(b: Batch<T>, accepts: nat -> bool, k: nat): Batch<T> {
    if k == 0 then b else Attempted(AfterAttempts(b, accepts, k - 1), accepts(k - 1))
  }

  /**
   * sendWithRetry, with the network's answers given: at most `maxRetries` requests, every one the whole batch, stopping at
   * the first accepted one; between them 1, 2, 4, ... seconds. With the three tries that flush asks for, the batch ends
   * as the steps of the retry loop say.
   */
  method SendWithRetry<T>(batch: array<T>, maxRetries: nat, accepts: nat -> bool)
    returns (ok: bool, requests: seq<seq<T>>, slept: nat)
    ensures forall i :: 0 <= i < |requests| ==> requests[i] == batch[..]
    ensures ok <==> exists i :: 0 <= i < maxRetries && accepts(i)
    ensures |requests| <= maxRetries && (!ok ==> |requests| == maxRetries)
    ensures ok ==> |requests| > 0 && accepts(|requests| - 1) && forall i :: 0 <= i < |requests| - 1 ==> !accepts(i)
    ensures |requests| > 0 ==> slept == Pow2(|requests| - 1) - 1
    ensures maxRetries == MAX_RETRIES ==>
              AfterAttempts(Batch(batch[..], 0, InFlight), accepts, |requests|).outcome == if ok then Delivered else Dropped
  {
    ok, requests, slept := false, [], 0;
    var backoff := 1;
    ghost var taken := Batch(batch[..], 0, InFlight);
    for attempt := 0 to maxRetries
      invariant !ok && |requests| == attempt
      invariant forall i :: 0 <= i < attempt ==> requests[i] == batch[..] && !accepts(i)
      invariant attempt > 0 ==> slept == Pow2(attempt - 1) - 1 && backoff == Pow2(attempt - 1)
      invariant attempt == 0 ==> slept == 0 && backoff == 1
      invariant AfterAttempts(taken, accepts, attempt)
                == taken.(fails := attempt, outcome := if attempt >= MAX_RETRIES then Dropped else InFlight)
    {
      if attempt > 0 {
        slept := slept + backoff;
        backoff := 2 * backoff;
      }
      requests := requests + [batch[..]];
      if accepts(attempt) {
        return true, requests, slept;
      }
    }
  }
}
