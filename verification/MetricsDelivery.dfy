/**
 * Metric messages over a queue that delivers each at least once (backend/internal/ingest/ingester.go): what the log holds
 * of a message after any run of deliveries, handlings, acknowledgements and refusals.
 */
module MetricsDelivery {
  import opened Common
  import opened MetricsIngest

  datatype Phase = Fetched | Succeeded | Failed | Acked | Naked

  datatype Delivery = Delivery(msg: nat, phase: Phase)

  /** A sample in the log, with the message it came from. */
  datatype Tagged<V> = Tagged(msg: nat, sample: Written<V>)

  /** One handling of a message that could be decoded, and which of its writes would report an error. */
  datatype Handling = Handling(msg: nat, fails: nat -> bool)

  datatype State<V> = State(log: seq<Tagged<V>>, deliveries: seq<Delivery>, history: seq<Handling>, acked: set<nat>)

  datatype Action = Deliver(msg: nat) | Handle(delivery: nat, fails: nat -> bool) | Settle(delivery: nat)

  function Empty<V>(): State<V> {
    State([], [], [], {})
  }

  function Tag<V>(m: nat, ws: seq<Written<V>>): seq<Tagged<V>> {
    seq(|ws|, i requires 0 <= i < |ws| => Tagged(m, ws[i]))
  }

  ghost predicate Enabled<V>(s: State<V>, a: Action, stream: seq<Option<MetricsBatch<V>>>) {
    match a
    case Deliver(m) => m < |stream|
    case Handle(d, _) => d < |s.deliveries| && s.deliveries[d].phase == Fetched && s.deliveries[d].msg < |stream|
    case Settle(d) => d < |s.deliveries| && s.deliveries[d].phase in {Succeeded, Failed}
  }

  ghost function Next<V>(s: State<V>, a: Action, stream: seq<Option<MetricsBatch<V>>>): State<V>
    requires a.Handle? ==> a.delivery < |s.deliveries| && s.deliveries[a.delivery].msg < |stream|
    requires a.Settle? ==> a.delivery < |s.deliveries|
  {
    match a
    case Deliver(m) => s.(deliveries := s.deliveries + [Delivery(m, Fetched)])
    case Handle(d, fails) =>
      var m := s.deliveries[d].msg;
      (match stream[m]
       case None => s.(deliveries := s.deliveries[d := Delivery(m, Failed)])
       case Some(b) =>
         var phase := if AnyFails(|b.samples|, fails) then Failed else Succeeded;
         State(s.log + Tag(m, Attempt(b, fails)), s.deliveries[d := Delivery(m, phase)], s.history + [Handling(m, fails)], s.acked))
    case Settle(d) =>
      var m := s.deliveries[d].msg;
      if s.deliveries[d].phase == Succeeded then
        s.(deliveries := s.deliveries[d := Delivery(m, Acked)], acked := s.acked + {m})
      else s.(deliveries := s.deliveries[d := Delivery(m, Naked)])
  }

  ghost predicate Reaches<V>(from: State<V>, acts: seq<Action>, to: State<V>, stream: seq<Option<MetricsBatch<V>>>)
    decreases |acts|
  {
    if |acts| == 0 then from == to
    else Enabled(from, acts[0], stream) && Reaches(Next(from, acts[0], stream), acts[1..], to, stream)
  }

  /** The samples of one message in the log. */
  function SamplesOf<V>(log: seq<Tagged<V>>, m: nat): seq<Written<V>>
    decreases |log|
  {
    if |log| == 0 then [] else
      var before, last := SamplesOf(log[..|log| - 1], m), log[|log| - 1];
      if last.msg == m then before + [last.sample] else before
  }

  /** How each handling of one message went, in order. */
  function Tries(history: seq<Handling>, m: nat): seq<nat -> bool>
    decreases |history|
  {
    if |history| == 0 then [] else
      var before, last := Tries(history[..|history| - 1], m), history[|history| - 1];
      if last.msg == m then before + [last.fails] else before
  }

  /** What several handlings of one batch leave behind. */
  function Left<V>(b: MetricsBatch<V>, tries: seq<nat -> bool>): seq<Written<V>>
    decreases |tries|
  {
    if |tries| == 0 then [] else Left(b, tries[..|tries| - 1]) + Attempt(b, tries[|tries| - 1])
  }

  ghost predicate OneSucceeds<V>(b: MetricsBatch<V>, tries: seq<nat -> bool>) {
    exists i :: 0 <= i < |tries| && !AnyFails(|b.samples|, tries[i])
  }

  /** A delivery that is handled and settled acknowledges its message exactly if it was decoded and every write succeeded. */
  lemma SettledAsHandled<V>(s: State<V>, d: nat, fails: nat -> bool, stream: seq<Option<MetricsBatch<V>>>)
    requires Enabled(s, Handle(d, fails), stream)
    ensures var handled, m := Next(s, Handle(d, fails), stream), s.deliveries[d].msg;
            && Enabled(handled, Settle(d), stream)
            && Next(handled, Settle(d), stream).acked
               == if stream[m].Some? && !AnyFails(|stream[m].value.samples|, fails) then s.acked + {m} else s.acked
  {}

  lemma SuccessIsWhole<V>(b: MetricsBatch<V>, fails: nat -> bool)
    requires !AnyFails(|b.samples|, fails)
    ensures Attempt(b, fails) == LabelledAll(b)
  {
    ReachedAll(|b.samples|, fails);
    assert LabelledAll(b)[..|b.samples|] == LabelledAll(b);
  }

  lemma {:induction false} LeftLength<V>(b: MetricsBatch<V>, tries: seq<nat -> bool>)
    requires b.samples != []
    ensures |Left(b, tries)| >= |tries|
    ensures OneSucceeds(b, tries) ==> |Left(b, tries)| >= |b.samples| + |tries| - 1
    decreases |tries|
  {
    if |tries| == 0 {
    } else {
      var before, last := tries[..|tries| - 1], tries[|tries| - 1];
      LeftLength(b, before);
      if !AnyFails(|b.samples|, last) {
        SuccessIsWhole(b, last);
      } else if OneSucceeds(b, tries) {
        var i :| 0 <= i < |tries| && !AnyFails(|b.samples|, tries[i]);
        assert before[i] == tries[i];
      }
    }
  }

  /** Handlings of which one succeeds leave the batch exactly once if and only if there was just that one. */
  lemma LeftOnceIff<V>(b: MetricsBatch<V>, tries: seq<nat -> bool>)
    requires b.samples != [] && OneSucceeds(b, tries)
    ensures Left(b, tries) == LabelledAll(b) <==> |tries| == 1
  {
    LeftLength(b, tries);
    if |tries| == 1 {
      SuccessIsWhole(b, tries[0]);
      assert Left(b, tries[..0]) == [];
    }
  }

  /** The whole batch stands somewhere in the log, all in one piece. */
  ghost predicate InLog<V>(log: seq<Tagged<V>>, m: nat, b: MetricsBatch<V>) {
    exists p :: InLogAt(log, m, b, p)
  }

  ghost predicate InLogAt<V>(log: seq<Tagged<V>>, m: nat, b: MetricsBatch<V>, p: nat) {
    p + |b.samples| <= |log| && log[p..p + |b.samples|] == Tag(m, LabelledAll(b))
  }

  lemma InLogStays<V>(log: seq<Tagged<V>>, more: seq<Tagged<V>>, m: nat, b: MetricsBatch<V>)
    requires InLog(log, m, b)
    ensures InLog(log + more, m, b)
  {
    var p: nat :| InLogAt(log, m, b, p);
    assert (log + more)[p..p + |b.samples|] == log[p..p + |b.samples|];
    assert InLogAt(log + more, m, b, p);
  }

  lemma {:induction false} SamplesOfAppend<V>(log: seq<Tagged<V>>, m: nat, ws: seq<Written<V>>, k: nat)
    ensures SamplesOf(log + Tag(m, ws), k) == if k == m then SamplesOf(log, k) + ws else SamplesOf(log, k)
    decreases |ws|
  {
    var all, n := log + Tag(m, ws), |ws|;
    if n == 0 {
      assert all == log;
    } else {
      SamplesOfAppend(log, m, ws[..n - 1], k);
      assert all[..|all| - 1] == log + Tag(m, ws[..n - 1]);
      assert ws[..n - 1] + [ws[n - 1]] == ws;
    }
  }

  lemma TriesAppend(history: seq<Handling>, h: Handling, k: nat)
    ensures Tries(history + [h], k) == if k == h.msg then Tries(history, k) + [h.fails] else Tries(history, k)
  {
    assert (history + [h])[..|history|] == history;
  }

  /** Message `m` could be decoded, one of its handlings succeeded, and it stands in the log whole. */
  ghost predicate Handled<V>(s: State<V>, m: nat, stream: seq<Option<MetricsBatch<V>>>) {
    m < |stream| && stream[m].Some? && OneSucceeds(stream[m].value, Tries(s.history, m)) && InLog(s.log, m, stream[m].value)
  }

  /** The log holds of each message what its handlings left. */
  ghost predicate LogIsLeft<V>(s: State<V>, stream: seq<Option<MetricsBatch<V>>>) {
    forall m: nat :: m < |stream| && stream[m].Some? ==> SamplesOf(s.log, m) == Left(stream[m].value, Tries(s.history, m))
  }

  ghost predicate SettledAreHandled<V>(s: State<V>, stream: seq<Option<MetricsBatch<V>>>) {
    && (forall m :: m in s.acked ==> Handled(s, m, stream))
    && (forall d :: 0 <= d < |s.deliveries| && s.deliveries[d].phase in {Succeeded, Acked} ==> Handled(s, s.deliveries[d].msg, stream))
  }

  ghost predicate Inv<V>(s: State<V>, stream: seq<Option<MetricsBatch<V>>>) {
    LogIsLeft(s, stream) && SettledAreHandled(s, stream)
  }

  lemma HandleLeaves<V>(s: State<V>, d: nat, fails: nat -> bool, stream: seq<Option<MetricsBatch<V>>>)
    requires LogIsLeft(s, stream) && Enabled(s, Handle(d, fails), stream)
    ensures LogIsLeft(Next(s, Handle(d, fails), stream), stream)
  {
    var m, s' := s.deliveries[d].msg, Next(s, Handle(d, fails), stream);
    if stream[m].Some? {
      var b := stream[m].value;
      forall k: nat | k < |stream| && stream[k].Some? ensures SamplesOf(s'.log, k) == Left(stream[k].value, Tries(s'.history, k)) {
        SamplesOfAppend(s.log, m, Attempt(b, fails), k);
        TriesAppend(s.history, Handling(m, fails), k);
        var tries := Tries(s.history, m);
        assert (tries + [fails])[..|tries|] == tries;
      }
    }
  }

  lemma HandledStays<V>(s: State<V>, d: nat, fails: nat -> bool, k: nat, stream: seq<Option<MetricsBatch<V>>>)
    requires Enabled(s, Handle(d, fails), stream) && Handled(s, k, stream)
    ensures Handled(Next(s, Handle(d, fails), stream), k, stream)
  {
    var m := s.deliveries[d].msg;
    if stream[m].Some? {
      InLogStays(s.log, Tag(m, Attempt(stream[m].value, fails)), k, stream[k].value);
      TriesAppend(s.history, Handling(m, fails), k);
      var tries := Tries(s.history, k);
      var i :| 0 <= i < |tries| && !AnyFails(|stream[k].value.samples|, tries[i]);
      assert (tries + [fails])[i] == tries[i];
    }
  }

  lemma SuccessIsHandled<V>(s: State<V>, d: nat, fails: nat -> bool, stream: seq<Option<MetricsBatch<V>>>)
    requires Enabled(s, Handle(d, fails), stream) && Next(s, Handle(d, fails), stream).deliveries[d].phase == Succeeded
    ensures Handled(Next(s, Handle(d, fails), stream), s.deliveries[d].msg, stream)
  {
    var m, s' := s.deliveries[d].msg, Next(s, Handle(d, fails), stream);
    var b, tries := stream[m].value, Tries(s.history, m);
    SuccessIsWhole(b, fails);
    assert InLogAt(s'.log, m, b, |s.log|);
    TriesAppend(s.history, Handling(m, fails), m);
    assert (tries + [fails])[|tries|] == fails;
  }

  lemma InvStep<V>(s: State<V>, a: Action, stream: seq<Option<MetricsBatch<V>>>)
    requires Inv(s, stream) && Enabled(s, a, stream)
    ensures Inv(Next(s, a, stream), stream)
  {
    match a
    case Handle(d, fails) =>
      var s' := Next(s, a, stream);
      HandleLeaves(s, d, fails, stream);
      forall k: nat | Handled(s, k, stream) ensures Handled(s', k, stream) { HandledStays(s, d, fails, k, stream); }
      if s'.deliveries[d].phase == Succeeded { SuccessIsHandled(s, d, fails, stream); }
    case _ =>
      forall k: nat | Handled(s, k, stream) ensures Handled(Next(s, a, stream), k, stream) {}
  }

  lemma {:induction false} InvRun<V>(s: State<V>, acts: seq<Action>, s': State<V>, stream: seq<Option<MetricsBatch<V>>>)
    requires Inv(s, stream) && Reaches(s, acts, s', stream)
    ensures Inv(s', stream)
    decreases |acts|
  {
    if |acts| == 0 {
    } else {
      InvStep(s, acts[0], stream);
      InvRun(Next(s, acts[0], stream), acts[1..], s', stream);
    }
  }

  /** In every run the log holds of each message, acknowledged or not, exactly the prefixes its handlings reached. */
  lemma LogIsWhatHandlingsLeft<V>(acts: seq<Action>, s: State<V>, m: nat, stream: seq<Option<MetricsBatch<V>>>)
    requires Reaches(Empty(), acts, s, stream) && m < |stream| && stream[m].Some?
    ensures SamplesOf(s.log, m) == Left(stream[m].value, Tries(s.history, m))
  {
    InvRun(Empty(), acts, s, stream);
  }

  /**
   * An acknowledged message stands in the log at least once, whole and in one piece; and exactly once if and only if only
   * one of its handlings reached a write, which with samples to write is: it was handled once.
   */
  lemma AckedStandsOnceIff<V>(acts: seq<Action>, s: State<V>, m: nat, stream: seq<Option<MetricsBatch<V>>>)
    requires Reaches(Empty(), acts, s, stream) && m in s.acked
    ensures m < |stream| && stream[m].Some? && InLog(s.log, m, stream[m].value)
    ensures var b := stream[m].value;
            SamplesOf(s.log, m) == LabelledAll(b) <==> b.samples == [] || |Tries(s.history, m)| == 1
  {
    InvRun(Empty(), acts, s, stream);
    var b, tries := stream[m].value, Tries(s.history, m);
    if b.samples == [] {
      LeftNothing(b, tries);
    } else {
      LeftOnceIff(b, tries);
    }
  }

  lemma {:induction false} LeftNothing<V>(b: MetricsBatch<V>, tries: seq<nat -> bool>)
    requires b.samples == []
    ensures Left(b, tries) == []
    decreases |tries|
  {
    if |tries| == 0 {
    } else {
      LeftNothing(b, tries[..|tries| - 1]);
    }
  }

  // --- Acknowledged and standing twice ---

  lemma {:induction false} ReachesMore<V>(from: State<V>, acts: seq<Action>, to: State<V>, a: Action, stream: seq<Option<MetricsBatch<V>>>)
    requires Reaches(from, acts, to, stream) && Enabled(to, a, stream)
    ensures Reaches(from, acts + [a], Next(to, a, stream), stream)
    decreases |acts|
  {
    if |acts| == 0 {
      assert [a][1..] == [] && acts + [a] == [a];
    } else {
      ReachesMore(Next(from, acts[0], stream), acts[1..], to, a, stream);
      assert (acts + [a])[1..] == acts[1..] + [a];
    }
  }

  /** Message `m` is delivered and handled once more, from any reachable state. */
  lemma Redelivery<V>(acts: seq<Action>, s: State<V>, m: nat, fails: nat -> bool, stream: seq<Option<MetricsBatch<V>>>)
    returns (acts': seq<Action>, s': State<V>)
    requires Reaches(Empty(), acts, s, stream) && m < |stream| && stream[m].Some?
    ensures Reaches(Empty(), acts', s', stream) && s'.acked == s.acked
    ensures var phase := if AnyFails(|stream[m].value.samples|, fails) then Failed else Succeeded;
            s'.deliveries == s.deliveries + [Delivery(m, phase)]
    ensures Tries(s'.history, m) == Tries(s.history, m) + [fails]
  {
    ReachesMore(Empty(), acts, s, Deliver(m), stream);
    var s1 := Next(s, Deliver(m), stream);
    var handle := Handle(|s.deliveries|, fails);
    ReachesMore(Empty(), acts + [Deliver(m)], s1, handle, stream);
    acts', s' := acts + [Deliver(m)] + [handle], Next(s1, handle, stream);
    TriesAppend(s.history, Handling(m, fails), m);
  }

  /**
   * For every batch with samples: its first write reports an error, the redelivery succeeds and is acknowledged, and the
   * message stands in the log more than once.
   */
  lemma AckedStandsTwice<V>(b: MetricsBatch<V>) returns (acts: seq<Action>, s: State<V>)
    requires b.samples != []
    ensures Reaches(Empty(), acts, s, [Some(b)]) && 0 in s.acked
    ensures |Tries(s.history, 0)| == 2 && SamplesOf(s.log, 0) != LabelledAll(b)
  {
    var first, second := (i: nat) => i == 0, (i: nat) => false;
    assert first(0);
    assert AnyFails(|b.samples|, first);
    assert !AnyFails(|b.samples|, second);
    var acts1, s1 := Redelivery([], Empty(), 0, first, [Some(b)]);
    var acts2, s2 := Redelivery(acts1, s1, 0, second, [Some(b)]);
    ReachesMore(Empty(), acts2, s2, Settle(1), [Some(b)]);
    acts, s := acts2 + [Settle(1)], Next(s2, Settle(1), [Some(b)]);
    AckedStandsOnceIff(acts, s, 0, [Some(b)]);
  }
}
