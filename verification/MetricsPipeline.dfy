/**
 * The metrics consumer on top of the batching client (backend/internal/ingest/ingester.go and
 * backend/internal/metrics/victoriametrics.go): WriteMetric returns as soon as its sample is buffered, so a message is
 * acknowledged before its samples have been sent. The steps are those of the client; the consumer is its first writer.
 */
module MetricsPipeline {
  import V = VictoriaMetrics

  /** The `index`-th sample of a message. */
  datatype Sample = Sample(msg: nat, index: nat)

  datatype Consumer = Waiting | Handling(msg: nat, next: nat)

  datatype State = State(client: V.State<Sample>, consumer: Consumer, acked: set<nat>)

  /** `sizes` says how many samples each message holds. */
  datatype Action =
    | Begin(msg: nat)
    | WriteNext
    | Ack
    | Client(a: V.Action<Sample>)

  const WRITER: V.Thread := V.Writer(0)

  function Init(batchSize: int): State {
    State(V.Init(batchSize), Waiting, {})
  }

  /** The consumer goes on when the WriteMetric it is in has returned; no one else writes. */
  ghost predicate Enabled(s: State, a: Action, sizes: seq<nat>) {
    match a
    case Begin(m) => s.consumer.Waiting? && m < |sizes| && V.PcOf(s.client, WRITER) == V.Idle
    case WriteNext =>
      && s.consumer.Handling? && s.consumer.msg < |sizes| && s.consumer.next < sizes[s.consumer.msg]
      && V.PcOf(s.client, WRITER) == V.Idle
    case Ack =>
      && s.consumer.Handling? && s.consumer.msg < |sizes| && s.consumer.next == sizes[s.consumer.msg]
      && V.PcOf(s.client, WRITER) == V.Idle
    case Client(a) => !a.Write? && V.Enabled(s.client, a)
  }

  /** The consumer's own attempt was the last its batch had: WriteMetric returns an error. */
  ghost predicate WriteFails(client: V.State<Sample>, a: V.Action<Sample>)
    requires V.Enabled(client, a)
  {
    a.Send? && a.t == WRITER && V.Attempted(client.batches[V.PcOf(client, WRITER).batch], a.ok).outcome == V.Dropped
  }

  ghost function Next(s: State, a: Action, sizes: seq<nat>): State
    requires Enabled(s, a, sizes)
  {
    match a
    case Begin(m) => s.(consumer := Handling(m, 0))
    case WriteNext =>
      var Handling(m, k) := s.consumer;
      s.(client := V.WriteStep(s.client, 0, Sample(m, k)), consumer := Handling(m, k + 1))
    case Ack => s.(consumer := Waiting, acked := s.acked + {s.consumer.msg})
    case Client(a) => s.(client := V.Next(s.client, a), consumer := if WriteFails(s.client, a) then Waiting else s.consumer)
  }

  ghost predicate Reaches(from: State, acts: seq<Action>, to: State, sizes: seq<nat>)
    decreases |acts|
  {
    if acts == [] then from == to
    else Enabled(from, acts[0], sizes) && Reaches(Next(from, acts[0], sizes), acts[1..], to, sizes)
  }

  // --- What every step keeps ---

  ghost predicate AppendedUpTo(s: State, m: nat, n: nat) {
    forall k :: 0 <= k < n ==> Sample(m, k) in s.client.appended
  }

  ghost predicate Inv(s: State, sizes: seq<nat>) {
    && V.Inv(s.client)
    && (forall m :: m in s.acked ==> m < |sizes| && AppendedUpTo(s, m, sizes[m]))
    && (s.consumer.Handling? ==> s.consumer.msg < |sizes| && AppendedUpTo(s, s.consumer.msg, s.consumer.next))
    && Roles(s.client)
  }

  /** Only callers of Stop wait; writers never leave, and the ticker and Stop only after the cancellation. */
  ghost predicate Roles(client: V.State<Sample>) {
    && (forall t :: t in client.pcs && client.pcs[t] == V.Waiting ==> t.Stopper?)
    && (forall t :: t in client.pcs && client.pcs[t] == V.Exited ==> !t.Writer?)
    && (!client.cancelled ==> V.PcOf(client, V.Ticker) != V.Exited && forall n :: V.Stopper(n) !in client.pcs)
  }

  lemma RolesStep(client: V.State<Sample>, a: V.Action<Sample>)
    requires Roles(client) && V.Enabled(client, a)
    ensures Roles(V.Next(client, a))
  {}

  lemma AppendedGrows(s: State, a: Action, sizes: seq<nat>)
    requires V.Inv(s.client) && Enabled(s, a, sizes)
    ensures s.client.appended <= Next(s, a, sizes).client.appended
    ensures V.Inv(Next(s, a, sizes).client)
  {
    match a
    case WriteNext => V.WriteKeeps(s.client, 0, Sample(s.consumer.msg, s.consumer.next));
    case Client(a) => V.InvStep(s.client, a);
    case _ =>
  }

  lemma UpToStays(s: State, s': State, m: nat, n: nat)
    requires AppendedUpTo(s, m, n) && s.client.appended <= s'.client.appended
    ensures AppendedUpTo(s', m, n)
  {
    forall k | 0 <= k < n ensures Sample(m, k) in s'.client.appended {
      var i :| 0 <= i < |s.client.appended| && s.client.appended[i] == Sample(m, k);
      assert s'.client.appended[i] == Sample(m, k);
    }
  }

  lemma InvStep(s: State, a: Action, sizes: seq<nat>)
    requires Inv(s, sizes) && Enabled(s, a, sizes)
    ensures Inv(Next(s, a, sizes), sizes)
  {
    var s' := Next(s, a, sizes);
    AppendedGrows(s, a, sizes);
    if a.WriteNext? {
      RolesStep(s.client, V.Write(0, Sample(s.consumer.msg, s.consumer.next)));
    } else if a.Client? {
      RolesStep(s.client, a.a);
    }
    forall m | m in s.acked ensures AppendedUpTo(s', m, sizes[m]) { UpToStays(s, s', m, sizes[m]); }
    if s.consumer.Handling? {
      UpToStays(s, s', s.consumer.msg, s.consumer.next);
    }
  }

  lemma {:induction false} InvRun(s: State, acts: seq<Action>, s': State, sizes: seq<nat>)
    requires Inv(s, sizes) && Reaches(s, acts, s', sizes)
    ensures Inv(s', sizes)
    decreases |acts|
  {
    if acts == [] {
    } else {
      InvStep(s, acts[0], sizes);
      InvRun(Next(s, acts[0], sizes), acts[1..], s', sizes);
    }
  }

  /** Every sample of an acknowledged message has been appended, so it is buffered, in flight, delivered or dropped. */
  lemma AckedIsAppended(batchSize: int, acts: seq<Action>, s: State, m: nat, k: nat, sizes: seq<nat>)
    requires Reaches(Init(batchSize), acts, s, sizes) && m in s.acked
    ensures m < |sizes|
    ensures k < sizes[m] ==> Sample(m, k) in V.Flatten(s.client.batches) + s.client.buffer
  {
    InvRun(Init(batchSize), acts, s, sizes);
  }

  /** When the consumer's own batch is dropped, its WriteMetric fails and the message is given up without acknowledgement. */
  lemma FailedWriteIsNotAcked(s: State, sizes: seq<nat>)
    requires Inv(s, sizes) && V.PcOf(s.client, WRITER).Sending?
    ensures var i := V.PcOf(s.client, WRITER).batch;
            var s' := Next(s, Client(V.Send(WRITER, false)), sizes);
            && s'.acked == s.acked
            && (s.client.batches[i].fails == 2 ==> s'.consumer == Waiting && s'.client.batches[i].outcome == V.Dropped)
            && (s.client.batches[i].fails < 2 ==> s'.consumer == s.consumer && V.PcOf(s'.client, WRITER) == V.Sending(i))
  {
    assert V.Holds(s.client.pcs, WRITER, V.PcOf(s.client, WRITER).batch);
  }

  /** A message is acknowledged only when its last WriteMetric has returned: the consumer owes no flush and holds no batch. */
  lemma AckedAfterReturn(s: State, sizes: seq<nat>, i: nat)
    requires Inv(s, sizes) && Enabled(s, Ack, sizes)
    ensures var s' := Next(s, Ack, sizes);
            && s'.acked == s.acked + {s.consumer.msg} && s.consumer.next == sizes[s.consumer.msg]
            && V.PcOf(s'.client, WRITER) != V.Flushing && !V.Holds(s'.client.pcs, WRITER, i)
  {}

  // --- Delivery ---

  ghost predicate Delivered(s: State, m: nat, sizes: seq<nat>)
    requires m < |sizes|
  {
    forall k :: 0 <= k < sizes[m] ==> Sample(m, k) in V.DeliveredOf(s.client.batches)
  }

  lemma {:induction false} DeliveredStays(bs: seq<V.Batch<Sample>>, i: nat, b: V.Batch<Sample>, x: Sample)
    requires i < |bs| && bs[i].outcome != V.Delivered && x in V.DeliveredOf(bs)
    ensures x in V.DeliveredOf(bs[i := b])
    decreases |bs|
  {
    var last := |bs| - 1;
    if i == last {
      assert bs[i := b][..last] == bs[..last];
    } else {
      assert bs[i := b][..last] == bs[..last][i := b];
      if x in V.DeliveredOf(bs[..last]) {
        DeliveredStays(bs[..last], i, b, x);
      }
    }
  }

  lemma DeliveredGrows(s: State, a: Action, x: Sample, sizes: seq<nat>)
    requires Inv(s, sizes) && Enabled(s, a, sizes) && x in V.DeliveredOf(s.client.batches)
    ensures x in V.DeliveredOf(Next(s, a, sizes).client.batches)
  {
    if a.Client? && a.a.Send? {
      var i := V.PcOf(s.client, a.a.t).batch;
      DeliveredStays(s.client.batches, i, V.Attempted(s.client.batches[i], a.a.ok), x);
    } else if a.Client? && a.a.Flush? && s.client.buffer != [] {
      var bs, b := s.client.batches, V.Batch(s.client.buffer, 0, V.InFlight);
      assert (bs + [b])[..|bs|] == bs;
    }
  }

  lemma {:induction false} DeliveredForGood(s: State, acts: seq<Action>, s': State, m: nat, sizes: seq<nat>)
    requires Inv(s, sizes) && Reaches(s, acts, s', sizes) && m < |sizes| && Delivered(s, m, sizes)
    ensures Delivered(s', m, sizes)
    decreases |acts|
  {
    if acts == [] {
    } else {
      var s1 := Next(s, acts[0], sizes);
      forall k | 0 <= k < sizes[m] ensures Sample(m, k) in V.DeliveredOf(s1.client.batches) {
        DeliveredGrows(s, acts[0], Sample(m, k), sizes);
      }
      InvStep(s, acts[0], sizes);
      DeliveredForGood(s1, acts[1..], s', m, sizes);
    }
  }

  /** After the cancellation nothing more is delivered, whatever the consumer does. */
  lemma {:induction false} NothingMore(s: State, acts: seq<Action>, s': State, sizes: seq<nat>)
    requires Inv(s, sizes) && s.client.cancelled && Reaches(s, acts, s', sizes)
    ensures V.DeliveredOf(s'.client.batches) == V.DeliveredOf(s.client.batches)
    decreases |acts|
  {
    if acts == [] {
    } else {
      var s1 := Next(s, acts[0], sizes);
      if acts[0].Client? {
        V.NothingDeliveredInStep(s.client, acts[0].a);
      }
      InvStep(s, acts[0], sizes);
      NothingMore(s1, acts[1..], s', sizes);
    }
  }

  /** The broker does not deliver the message again, as it need not once it has been acknowledged. */
  ghost predicate NotAgain(acts: seq<Action>, m: nat) {
    Begin(m) !in acts
  }

  /** Some continuation without another delivery of the message brings all its samples to the store. */
  ghost predicate Deliverable(s: State, m: nat, sizes: seq<nat>)
    requires m < |sizes|
  {
    exists acts, s' :: NotAgain(acts, m) && Reaches(s, acts, s', sizes) && Delivered(s', m, sizes)
  }

  /** Where a sample can be that may still reach the store: in the buffer, in flight, or not yet written. */
  ghost predicate Pending(s: State, x: Sample) {
    || x in s.client.buffer
    || InFlight(s.client.batches, x)
    || (s.consumer.Handling? && s.consumer.msg == x.msg && s.consumer.next <= x.index)
  }

  ghost predicate InFlight(bs: seq<V.Batch<Sample>>, x: Sample) {
    exists i :: 0 <= i < |bs| && bs[i].outcome == V.InFlight && x in bs[i].samples
  }

  /** Delivered, or the context is not cancelled and the sample is still on its way. */
  ghost predicate Hope(s: State, x: Sample) {
    x in V.DeliveredOf(s.client.batches) || (!s.client.cancelled && Pending(s, x))
  }

  lemma {:induction false} DeliveredIsIn(bs: seq<V.Batch<Sample>>, x: Sample)
    ensures x in V.DeliveredOf(bs) <==> exists i :: 0 <= i < |bs| && bs[i].outcome == V.Delivered && x in bs[i].samples
    decreases |bs|
  {
    if bs == [] {
    } else {
      var before := bs[..|bs| - 1];
      DeliveredIsIn(before, x);
      if i :| 0 <= i < |bs| && bs[i].outcome == V.Delivered && x in bs[i].samples {
        assert i < |before| ==> before[i] == bs[i];
      }
      if i :| 0 <= i < |before| && before[i].outcome == V.Delivered && x in before[i].samples {
        assert bs[i] == before[i];
      }
    }
  }

  /** Every batch was there before, in flight if it has changed; or it is what the buffer held. */
  lemma BatchBefore(s: State, a: Action, i: nat, sizes: seq<nat>)
    requires Inv(s, sizes) && Enabled(s, a, sizes) && i < |Next(s, a, sizes).client.batches|
    ensures var bs, b := s.client.batches, Next(s, a, sizes).client.batches[i];
            if i < |bs| then
              b.samples == bs[i].samples
              && (b == bs[i] || (bs[i].outcome == V.InFlight && (b.outcome == V.Delivered ==> !s.client.cancelled)))
            else b == V.Batch(s.client.buffer, 0, V.InFlight)
  {
    if a.Client? && a.a.Send? {
      assert V.Holds(s.client.pcs, a.a.t, V.PcOf(s.client, a.a.t).batch);
    }
  }

  /** What a step delivers was in flight. */
  lemma DeliveredHadHope(s: State, a: Action, x: Sample, sizes: seq<nat>)
    requires Inv(s, sizes) && Enabled(s, a, sizes) && x in V.DeliveredOf(Next(s, a, sizes).client.batches)
    ensures Hope(s, x)
  {
    var bs, bs' := s.client.batches, Next(s, a, sizes).client.batches;
    DeliveredIsIn(bs, x);
    DeliveredIsIn(bs', x);
    var i :| 0 <= i < |bs'| && bs'[i].outcome == V.Delivered && x in bs'[i].samples;
    BatchBefore(s, a, i, sizes);
    assert x in bs[i].samples;
  }

  /** What is in flight after a step was in flight or in the buffer. */
  lemma FlightWasPending(s: State, a: Action, x: Sample, sizes: seq<nat>)
    requires Inv(s, sizes) && Enabled(s, a, sizes) && InFlight(Next(s, a, sizes).client.batches, x)
    ensures InFlight(s.client.batches, x) || x in s.client.buffer
  {
    var bs, bs' := s.client.batches, Next(s, a, sizes).client.batches;
    var i :| 0 <= i < |bs'| && bs'[i].outcome == V.InFlight && x in bs'[i].samples;
    BatchBefore(s, a, i, sizes);
    assert i < |bs| ==> x in bs[i].samples;
  }

  lemma PendingWasPending(s: State, a: Action, x: Sample, sizes: seq<nat>)
    requires Inv(s, sizes) && Enabled(s, a, sizes) && a != Begin(x.msg) && Pending(Next(s, a, sizes), x)
    ensures Pending(s, x)
  {
    var s' := Next(s, a, sizes);
    if InFlight(s'.client.batches, x) {
      FlightWasPending(s, a, x, sizes);
    } else if x in s'.client.buffer {
      assert a.WriteNext? ==> s'.client.buffer == s.client.buffer + [Sample(s.consumer.msg, s.consumer.next)];
    }
  }

  /** A sample that can no longer be delivered stays so, unless its message is delivered again. */
  lemma HopelessStep(s: State, a: Action, x: Sample, sizes: seq<nat>)
    requires Inv(s, sizes) && Enabled(s, a, sizes) && a != Begin(x.msg) && !Hope(s, x)
    ensures !Hope(Next(s, a, sizes), x)
  {
    var s' := Next(s, a, sizes);
    if x in V.DeliveredOf(s'.client.batches) { DeliveredHadHope(s, a, x, sizes); }
    if Pending(s', x) { PendingWasPending(s, a, x, sizes); }
  }

  lemma {:induction false} HopelessForGood(s: State, acts: seq<Action>, s': State, x: Sample, sizes: seq<nat>)
    requires Inv(s, sizes) && Reaches(s, acts, s', sizes) && NotAgain(acts, x.msg) && !Hope(s, x)
    ensures !Hope(s', x)
    decreases |acts|
  {
    if acts == [] {
    } else {
      HopelessStep(s, acts[0], x, sizes);
      InvStep(s, acts[0], sizes);
      assert NotAgain(acts[1..], x.msg);
      HopelessForGood(Next(s, acts[0], sizes), acts[1..], s', x, sizes);
    }
  }

  // --- Everything that is still on its way can arrive ---

  /** The steps that bring samples nearer to the store. */
  predicate Forward(a: Action) {
    || a.WriteNext?
    || (a.Client? && (a.a.Start? || a.a.Tick? || a.a.Flush? || (a.a.Send? && a.a.ok)))
  }

  lemma ForwardKeepsHope(s: State, a: Action, x: Sample, sizes: seq<nat>)
    requires Inv(s, sizes) && Enabled(s, a, sizes) && Forward(a) && Hope(s, x)
    ensures Hope(Next(s, a, sizes), x)
  {
    var s' := Next(s, a, sizes);
    if x in V.DeliveredOf(s.client.batches) {
      DeliveredGrows(s, a, x, sizes);
    } else if InFlight(s.client.batches, x) {
      FlightGoesOn(s, a, x, sizes);
    } else if a.Client? && a.a.Flush? && s.client.buffer != [] {
      assert x in s.client.buffer ==> x in s'.client.batches[|s.client.batches|].samples;
    }
  }

  lemma FlightGoesOn(s: State, a: Action, x: Sample, sizes: seq<nat>)
    requires Inv(s, sizes) && Enabled(s, a, sizes) && Forward(a) && InFlight(s.client.batches, x)
    ensures var bs := Next(s, a, sizes).client.batches; InFlight(bs, x) || x in V.DeliveredOf(bs)
  {
    var bs, bs' := s.client.batches, Next(s, a, sizes).client.batches;
    var i :| 0 <= i < |bs| && bs[i].outcome == V.InFlight && x in bs[i].samples;
    DeliveredIsIn(bs', x);
    if a.Client? && a.a.Send? && V.PcOf(s.client, a.a.t).batch == i {
      assert bs'[i].outcome == V.Delivered && bs'[i].samples == bs[i].samples;
    } else {
      assert bs'[i] == bs[i];
    }
  }

  ghost function Flying(s: State): set<nat> {
    set i: nat | i < |s.client.batches| && s.client.batches[i].outcome == V.InFlight
  }

  function ToWrite(s: State, sizes: seq<nat>): nat {
    if s.consumer.Handling? && s.consumer.msg < |sizes| && s.consumer.next < sizes[s.consumer.msg]
    then sizes[s.consumer.msg] - s.consumer.next else 0
  }

  /** Nothing to write, nothing buffered, nothing in flight. */
  ghost predicate Settled(s: State, sizes: seq<nat>) {
    ToWrite(s, sizes) == 0 && s.client.buffer == [] && Flying(s) == {}
  }

  function Rank(b: bool): nat {
    if b then 1 else 0
  }

  /** `b` is nearer to being settled than `a`. */
  ghost predicate Nearer(b: State, a: State, sizes: seq<nat>) {
    var (w, w') := (ToWrite(a, sizes), ToWrite(b, sizes));
    var (f, f') := (Rank(a.client.buffer != []), Rank(b.client.buffer != []));
    var (t, t') := (Turns(a), Turns(b));
    w' < w || (w' == w && (f' < f || (f' == f && (Flying(b) < Flying(a) || (Flying(b) == Flying(a) && t' < t)))))
  }

  /** What a flush still waits for: the ticker's start, its tick, or a writer that finds nothing to flush. */
  function Turns(s: State): nat {
    Rank(!s.client.started) + Rank(V.PcOf(s.client, V.Ticker) != V.Flushing) + Rank(V.PcOf(s.client, WRITER) == V.Flushing)
  }

  lemma SendFlying(s: State, sizes: seq<nat>) returns (a: Action)
    requires Inv(s, sizes) && !s.client.cancelled && Flying(s) != {}
    ensures Enabled(s, a, sizes) && Forward(a) && Nearer(Next(s, a, sizes), s, sizes)
    ensures !Next(s, a, sizes).client.cancelled
  {
    var i: nat :| i in Flying(s);
    var t :| V.Holds(s.client.pcs, t, i);
    a := Client(V.Send(t, true));
    assert Flying(Next(s, a, sizes)) == Flying(s) - {i};
  }

  lemma FlushBuffer(s: State, sizes: seq<nat>) returns (a: Action)
    requires Inv(s, sizes) && !s.client.cancelled && Flying(s) == {} && s.client.buffer != []
    ensures Enabled(s, a, sizes) && Forward(a) && Nearer(Next(s, a, sizes), s, sizes)
    ensures !Next(s, a, sizes).client.cancelled
  {
    SendingIsFlying(s, V.Ticker, sizes);
    if V.PcOf(s.client, V.Ticker) == V.Flushing {
      a := Client(V.Flush(V.Ticker));
    } else if !s.client.started {
      a := Client(V.Start);
    } else {
      a := Client(V.Tick);
    }
  }

  lemma SendingIsFlying(s: State, t: V.Thread, sizes: seq<nat>)
    requires Inv(s, sizes)
    ensures V.PcOf(s.client, t).Sending? ==> V.PcOf(s.client, t).batch in Flying(s)
  {}

  lemma WriteOn(s: State, sizes: seq<nat>) returns (a: Action)
    requires Inv(s, sizes) && !s.client.cancelled && Flying(s) == {} && s.client.buffer == [] && ToWrite(s, sizes) > 0
    ensures Enabled(s, a, sizes) && Forward(a) && Nearer(Next(s, a, sizes), s, sizes)
    ensures !Next(s, a, sizes).client.cancelled
  {
    SendingIsFlying(s, WRITER, sizes);
    a := if V.PcOf(s.client, WRITER) == V.Flushing then Client(V.Flush(WRITER)) else WriteNext;
  }

  lemma StepForward(s: State, sizes: seq<nat>) returns (a: Action)
    requires Inv(s, sizes) && !s.client.cancelled && !Settled(s, sizes)
    ensures Enabled(s, a, sizes) && Forward(a) && Nearer(Next(s, a, sizes), s, sizes)
    ensures !Next(s, a, sizes).client.cancelled
  {
    if Flying(s) != {} {
      a := SendFlying(s, sizes);
    } else if s.client.buffer != [] {
      a := FlushBuffer(s, sizes);
    } else {
      a := WriteOn(s, sizes);
    }
  }

  /** As long as nothing is cancelled, a continuation that settles everything without losing a sample. */
  lemma {:induction false} Settle(s: State, sizes: seq<nat>) returns (acts: seq<Action>, s': State)
    requires Inv(s, sizes) && !s.client.cancelled
    ensures Reaches(s, acts, s', sizes) && Settled(s', sizes) && forall a :: a in acts ==> Forward(a)
    ensures forall x :: Hope(s, x) ==> Hope(s', x)
    decreases ToWrite(s, sizes), Rank(s.client.buffer != []), Flying(s), Turns(s)
  {
    if Settled(s, sizes) {
      acts, s' := [], s;
    } else {
      var a := StepForward(s, sizes);
      var s1 := Next(s, a, sizes);
      InvStep(s, a, sizes);
      var rest, end := Settle(s1, sizes);
      forall x | Hope(s, x) ensures Hope(end, x) { ForwardKeepsHope(s, a, x, sizes); }
      acts, s' := [a] + rest, end;
      assert acts[1..] == rest;
    }
  }

  /** In a settled state what can be delivered has been. */
  lemma SettledMeansDelivered(s: State, x: Sample, sizes: seq<nat>)
    requires Inv(s, sizes) && Settled(s, sizes) && Hope(s, x) && x.msg < |sizes| && x.index < sizes[x.msg]
    ensures x in V.DeliveredOf(s.client.batches)
  {
    InFlightIsFlying(s, x);
  }

  lemma InFlightIsFlying(s: State, x: Sample)
    ensures InFlight(s.client.batches, x) ==> Flying(s) != {}
  {
    if i: nat :| i < |s.client.batches| && s.client.batches[i].outcome == V.InFlight && x in s.client.batches[i].samples {
      assert i in Flying(s);
    }
  }

  /** Every sample is delivered, or on its way with the context not cancelled. */
  ghost predicate Hopeful(s: State, m: nat, sizes: seq<nat>)
    requires m < |sizes|
  {
    forall k :: 0 <= k < sizes[m] ==> Hope(s, Sample(m, k))
  }

  lemma HopefulIsDeliverable(s: State, m: nat, sizes: seq<nat>)
    requires Inv(s, sizes) && m < |sizes| && Hopeful(s, m, sizes)
    ensures Deliverable(s, m, sizes)
  {
    if s.client.cancelled {
      assert NotAgain([], m) && Reaches(s, [], s, sizes) && Delivered(s, m, sizes);
    } else {
      var acts, s' := Settle(s, sizes);
      InvRun(s, acts, s', sizes);
      forall k | 0 <= k < sizes[m] ensures Sample(m, k) in V.DeliveredOf(s'.client.batches) {
        SettledMeansDelivered(s', Sample(m, k), sizes);
      }
      assert NotAgain(acts, m);
    }
  }

  /**
   * At any moment of any run, and without another delivery by the broker: a message can still be delivered exactly when
   * each of its samples is delivered, or the context is not cancelled and the sample is buffered, in flight, or about to
   * be written. An acknowledged message that the consumer is not handling again has no sample about to be written.
   */
  lemma DeliverableIff(batchSize: int, acts: seq<Action>, s: State, m: nat, sizes: seq<nat>)
    requires Reaches(Init(batchSize), acts, s, sizes) && m < |sizes|
    ensures Deliverable(s, m, sizes) <==> Hopeful(s, m, sizes)
  {
    InvRun(Init(batchSize), acts, s, sizes);
    if Hopeful(s, m, sizes) {
      HopefulIsDeliverable(s, m, sizes);
    } else {
      var k :| 0 <= k < sizes[m] && !Hope(s, Sample(m, k));
      forall more, s' | NotAgain(more, m) && Reaches(s, more, s', sizes) ensures !Delivered(s', m, sizes) {
        HopelessForGood(s, more, s', Sample(m, k), sizes);
      }
    }
  }

  /** An acknowledged message that is not being handled again has only what is buffered or in flight to hope for. */
  lemma AckedDeliverableIff(batchSize: int, acts: seq<Action>, s: State, m: nat, sizes: seq<nat>)
    requires Reaches(Init(batchSize), acts, s, sizes) && m < |sizes|
    requires m in s.acked && (s.consumer.Handling? ==> s.consumer.msg != m)
    ensures Deliverable(s, m, sizes) <==>
              forall k :: 0 <= k < sizes[m] ==>
                || Sample(m, k) in V.DeliveredOf(s.client.batches)
                || (!s.client.cancelled && (Sample(m, k) in s.client.buffer || InFlight(s.client.batches, Sample(m, k))))
  {
    DeliverableIff(batchSize, acts, s, m, sizes);
    assert forall k :: 0 <= k < sizes[m] ==> (Hope(s, Sample(m, k)) <==>
      || Sample(m, k) in V.DeliveredOf(s.client.batches)
      || (!s.client.cancelled && (Sample(m, k) in s.client.buffer || InFlight(s.client.batches, Sample(m, k)))));
  }

  // --- Safe from every future ---

  /** Whatever happens short of another delivery, the message can still be delivered. */
  ghost predicate Safe(s: State, m: nat, sizes: seq<nat>)
    requires m < |sizes|
  {
    forall acts, s' :: NotAgain(acts, m) && Reaches(s, acts, s', sizes) ==> Deliverable(s', m, sizes)
  }

  /** One Stop ends every hope of delivery. */
  lemma StopEndsDelivery(s: State, m: nat, sizes: seq<nat>) returns (acts: seq<Action>, s': State)
    requires Inv(s, sizes) && m < |sizes| && !Delivered(s, m, sizes)
    ensures NotAgain(acts, m) && Reaches(s, acts, s', sizes) && !Deliverable(s', m, sizes)
  {
    if s.client.cancelled {
      acts, s' := [], s;
    } else {
      acts, s' := [Client(V.Stop(0))], Next(s, Client(V.Stop(0)), sizes);
      assert acts[1..] == [];
      InvStep(s, Client(V.Stop(0)), sizes);
    }
    forall more, end | Reaches(s', more, end, sizes) ensures !Delivered(end, m, sizes) {
      NothingMore(s', more, end, sizes);
    }
  }

  /** A message is safe from every future exactly when all its samples have been delivered already. */
  lemma SafeIffDelivered(batchSize: int, acts: seq<Action>, s: State, m: nat, sizes: seq<nat>)
    requires Reaches(Init(batchSize), acts, s, sizes) && m < |sizes|
    ensures Safe(s, m, sizes) <==> Delivered(s, m, sizes)
  {
    InvRun(Init(batchSize), acts, s, sizes);
    if Delivered(s, m, sizes) {
      forall more, s' | NotAgain(more, m) && Reaches(s, more, s', sizes) ensures Deliverable(s', m, sizes) {
        DeliveredForGood(s, more, s', m, sizes);
        assert NotAgain([], m) && Reaches(s', [], s', sizes);
      }
    } else {
      var more, s' := StopEndsDelivery(s, m, sizes);
    }
  }

  // --- Acknowledged and not delivered ---

  lemma {:induction false} ReachesMore(from: State, acts: seq<Action>, to: State, a: Action, sizes: seq<nat>)
    requires Reaches(from, acts, to, sizes) && Enabled(to, a, sizes)
    ensures Reaches(from, acts + [a], Next(to, a, sizes), sizes)
    decreases |acts|
  {
    if acts == [] {
      assert [a][1..] == [];
    } else {
      ReachesMore(Next(from, acts[0], sizes), acts[1..], to, a, sizes);
      assert (acts + [a])[1..] == acts[1..] + [a];
    }
  }

  /** One sample, written and acknowledged, in a batch that the ticker holds. */
  ghost predicate AckedAndTaken(batchSize: int, acts: seq<Action>, s: State) {
    && Reaches(Init(batchSize), acts, s, [1])
    && s.acked == {0} && s.consumer == Waiting && !s.client.cancelled && s.client.buffer == []
    && s.client.batches == [V.Batch([Sample(0, 0)], 0, V.InFlight)] && V.PcOf(s.client, V.Ticker) == V.Sending(0)
  }

  const START: Action := Client(V.Start)
  const TICK: Action := Client(V.Tick)
  const TAKE: Action := Client(V.Flush(V.Ticker))
  const FAIL: Action := Client(V.Send(V.Ticker, false))

  /** With room in the buffer the message is acknowledged first and taken later. */
  lemma TakenAfterAck(batchSize: int) returns (acts: seq<Action>, s: State)
    requires batchSize >= 2
    ensures AckedAndTaken(batchSize, acts, s)
  {
    var s0 := Init(batchSize);
    ReachesMore(s0, [], s0, Begin(0), [1]);
    var s1 := Next(s0, Begin(0), [1]);
    ReachesMore(s0, [] + [Begin(0)], s1, WriteNext, [1]);
    var s2 := Next(s1, WriteNext, [1]);
    assert s2.client.buffer == [Sample(0, 0)];
    ReachesMore(s0, [] + [Begin(0)] + [WriteNext], s2, Ack, [1]);
    var s3 := Next(s2, Ack, [1]);
    acts, s := TickerTakes(batchSize, [] + [Begin(0)] + [WriteNext] + [Ack], s3);
  }

  /** The ticker takes what is buffered, from any state in which it has not been started. */
  lemma TickerTakes(batchSize: int, acts: seq<Action>, s: State) returns (acts': seq<Action>, s': State)
    requires Reaches(Init(batchSize), acts, s, [1])
    requires !s.client.started && V.PcOf(s.client, V.Ticker) == V.Idle && s.client.buffer != []
    ensures Reaches(Init(batchSize), acts', s', [1])
    ensures s'.consumer == s.consumer && s'.acked == s.acked && s'.client.cancelled == s.client.cancelled
    ensures s'.client.buffer == [] && s'.client.batches == s.client.batches + [V.Batch(s.client.buffer, 0, V.InFlight)]
    ensures forall t :: V.PcOf(s'.client, t) == if t == V.Ticker then V.Sending(|s.client.batches|) else V.PcOf(s.client, t)
  {
    var s0 := Init(batchSize);
    ReachesMore(s0, acts, s, START, [1]);
    var s1 := Next(s, START, [1]);
    ReachesMore(s0, acts + [START], s1, TICK, [1]);
    var s2 := Next(s1, TICK, [1]);
    ReachesMore(s0, acts + [START] + [TICK], s2, TAKE, [1]);
    acts', s' := acts + [START] + [TICK] + [TAKE], Next(s2, TAKE, [1]);
  }

  /** A batch size of one or less does not help: the ticker takes the sample before its writer does. */
  lemma TakenBeforeAck(batchSize: int) returns (acts: seq<Action>, s: State)
    requires batchSize <= 1
    ensures AckedAndTaken(batchSize, acts, s)
  {
    var s0, flush := Init(batchSize), Client(V.Flush(WRITER));
    ReachesMore(s0, [], s0, Begin(0), [1]);
    var s1 := Next(s0, Begin(0), [1]);
    ReachesMore(s0, [] + [Begin(0)], s1, WriteNext, [1]);
    var s2 := Next(s1, WriteNext, [1]);
    assert s2.client.buffer == [Sample(0, 0)];
    var acts3, s3 := TickerTakes(batchSize, [] + [Begin(0)] + [WriteNext], s2);
    ReachesMore(s0, acts3, s3, flush, [1]);
    var s4 := Next(s3, flush, [1]);
    ReachesMore(s0, acts3 + [flush], s4, Ack, [1]);
    acts, s := acts3 + [flush] + [Ack], Next(s4, Ack, [1]);
  }

  /** The ticker's three attempts fail. */
  lemma TickerFails(batchSize: int, acts: seq<Action>, s: State) returns (acts': seq<Action>, s': State)
    requires AckedAndTaken(batchSize, acts, s)
    ensures Reaches(Init(batchSize), acts', s', [1]) && s'.acked == {0} && s'.consumer == Waiting
    ensures !s'.client.cancelled && s'.client.buffer == [] && s'.client.batches == [V.Batch([Sample(0, 0)], 3, V.Dropped)]
  {
    var s0 := Init(batchSize);
    ReachesMore(s0, acts, s, FAIL, [1]);
    var s1 := Next(s, FAIL, [1]);
    assert s1.client.batches == [V.Batch([Sample(0, 0)], 1, V.InFlight)];
    ReachesMore(s0, acts + [FAIL], s1, FAIL, [1]);
    var s2 := Next(s1, FAIL, [1]);
    assert s2.client.batches == [V.Batch([Sample(0, 0)], 2, V.InFlight)];
    ReachesMore(s0, acts + [FAIL] + [FAIL], s2, FAIL, [1]);
    acts', s' := acts + [FAIL] + [FAIL] + [FAIL], Next(s2, FAIL, [1]);
  }

  /**
   * No batch size makes an acknowledgement mean delivery, and no Stop is needed to lose an acknowledged message: in some
   * run it is acknowledged, its only batch is dropped after three failed attempts, the client is running, and without
   * another delivery by the broker the message can no longer be delivered.
   */
  lemma AckedCanBeLost(batchSize: int) returns (acts: seq<Action>, s: State)
    ensures Reaches(Init(batchSize), acts, s, [1]) && 0 in s.acked && !s.client.cancelled
    ensures s.client.batches == [V.Batch([Sample(0, 0)], 3, V.Dropped)] && !Deliverable(s, 0, [1])
  {
    if batchSize >= 2 {
      acts, s := TakenAfterAck(batchSize);
    } else {
      acts, s := TakenBeforeAck(batchSize);
    }
    acts, s := TickerFails(batchSize, acts, s);
    DeliveredIsIn(s.client.batches, Sample(0, 0));
    assert !Hope(s, Sample(0, 0));
    DeliverableIff(batchSize, acts, s, 0, [1]);
  }
}
