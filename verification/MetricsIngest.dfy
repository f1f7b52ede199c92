/**
 * Durable metric ingest: handleMetricsMsg and its consumer loop (backend/internal/ingest/ingester.go). The metric
 * writer is an append-only log whose append can report an error after it has appended, as WriteMetric does when the
 * flush it triggers fails.
 */
module MetricsIngest {
  import opened Common

  type Labels = map<string, string>

  datatype Sample<V> = Sample(name: string, value: V, labels: Option<Labels>, at: int)

  datatype MetricsBatch<V> = MetricsBatch(deviceId: string, source: string, samples: seq<Sample<V>>)

  /** What one WriteMetric is given. */
  datatype Written<V> = Written(name: string, value: V, labels: Labels, at: int)

  function Own(s: Sample): Labels {
    if s.labels.Some? then s.labels.value else map[]
  }

  /** The sample's own labels, completed by the two core labels where it lacks them. */
  function Labelled<V>(s: Sample<V>, b: MetricsBatch<V>): Written<V> {
    Written(s.name, s.value, map["device_id" := b.deviceId, "source_protocol" := b.source] + Own(s), s.at)
  }

  function LabelledAll<V>(b: MetricsBatch<V>): seq<Written<V>> {
    seq(|b.samples|, i requires 0 <= i < |b.samples| => Labelled(b.samples[i], b))
  }

  /** How many samples are written before handling stops: all, or up to and including the first that reports an error. */
  function Reached(n: nat, fails: nat -> bool): (k: nat)
    ensures k <= n
    ensures forall i :: 0 <= i < k - 1 ==> !fails(i)
    ensures k < n ==> k > 0 && fails(k - 1)
  {
    if n == 0 then 0 else
      var k := Reached(n - 1, fails);
      if k < n - 1 || (k > 0 && fails(k - 1)) then k else n
  }

  ghost predicate AnyFails(n: nat, fails: nat -> bool) {
    exists i :: 0 <= i < n && fails(i)
  }

  /** The batch `b` stands in the log, whole, in order and fully labelled. */
  ghost predicate Stands<V>(b: MetricsBatch<V>, log: seq<Written<V>>) {
    exists p :: StandsAt(b, log, p)
  }

  ghost predicate StandsAt<V>(b: MetricsBatch<V>, log: seq<Written<V>>, p: nat) {
    p + |b.samples| <= |log| && log[p..p + |b.samples|] == LabelledAll(b)
  }

  lemma StandsAfterMore<V>(b: MetricsBatch<V>, log: seq<Written<V>>, more: seq<Written<V>>)
    requires Stands(b, log)
    ensures Stands(b, log + more)
  {
    var p: nat :| StandsAt(b, log, p);
    assert (log + more)[p..p + |b.samples|] == log[p..p + |b.samples|];
    assert StandsAt(b, log + more, p);
  }

  /** What one handling of a batch appends. */
  function Attempt<V>(b: MetricsBatch<V>, fails: nat -> bool): (ws: seq<Written<V>>)
    ensures b.samples != [] ==> ws != []
    ensures |ws| < |b.samples| ==> fails(|ws| - 1)
  {
    LabelledAll(b)[..Reached(|b.samples|, fails)]
  }

  /** What handling `msgs` one after the other appends. */
  function AppendedBy<V>(msgs: seq<Option<MetricsBatch<V>>>, fails: nat -> nat -> bool): seq<Written<V>>
    decreases |msgs|
  {
    if |msgs| == 0 then [] else
      var n := |msgs| - 1;
      var before := AppendedBy(msgs[..n], fails);
      if msgs[n].Some? then before + Attempt(msgs[n].value, fails(n)) else before
  }

  class Ingester<V> {
    var written: seq<Written<V>>

    constructor ()
      ensures written == []
    {
      written := [];
    }

    method WriteMetric(s: Sample<V>, labels: Labels, fails: bool) returns (err: bool)
      modifies this
      ensures written == old(written) + [Written(s.name, s.value, labels, s.at)] && err == fails
    {
      written := written + [Written(s.name, s.value, labels, s.at)];
      return fails;
    }

    method HandleMetricsMsg(msg: Option<MetricsBatch<V>>, fails: nat -> bool) returns (err: bool)
      modifies this
      ensures msg.None? ==> err && written == old(written)
      ensures msg.Some? ==>
                && (err <==> AnyFails(|msg.value.samples|, fails))
                && written == old(written) + Attempt(msg.value, fails)
    {
      if msg.None? {
        return true;
      }
      var batch := msg.value;
      ghost var target := LabelledAll(batch);
      for i := 0 to |batch.samples|
        invariant forall j :: 0 <= j < i ==> !fails(j)
        invariant written == old(written) + target[..i]
      {
        err := WriteSample(batch.samples[i], batch, fails(i));
        assert target[..i + 1] == target[..i] + [target[i]];
        if err {
          ReachedStops(i, |batch.samples|, fails);
          return true;
        }
      }
      ReachedAll(|batch.samples|, fails);
      assert target[..|batch.samples|] == target;
      return false;
    }

    /** The body of the loop over the samples: complete the labels, then write. */
    method WriteSample(s: Sample<V>, batch: MetricsBatch<V>, fails: bool) returns (err: bool)
      modifies this
      ensures written == old(written) + [Labelled(s, batch)] && err == fails
    {
      var labels := if s.labels.None? then map[] else s.labels.value;
      if "device_id" !in labels {
        labels := labels["device_id" := batch.deviceId];
      }
      if "source_protocol" !in labels {
        labels := labels["source_protocol" := batch.source];
      }
      assert labels == Labelled(s, batch).labels;
      err := WriteMetric(s, labels, fails);
    }

    /**
     * One fetched batch of messages: what each appends, refused ones included; an acknowledged message has left all its
     * samples in the log, whole and labelled.
     */
    method ConsumeFetched(msgs: seq<Option<MetricsBatch<V>>>, fails: nat -> nat -> bool) returns (acks: seq<bool>)
      modifies this
      ensures |acks| == |msgs| && written == old(written) + AppendedBy(msgs, fails)
      ensures forall i :: 0 <= i < |msgs| ==> (acks[i] <==> msgs[i].Some? && !AnyFails(|msgs[i].value.samples|, fails(i)))
      ensures forall i :: 0 <= i < |msgs| && acks[i] ==> Stands(msgs[i].value, written)
    {
      acks := [];
      for i := 0 to |msgs|
        invariant |acks| == i && written == old(written) + AppendedBy(msgs[..i], fails)
        invariant forall k :: 0 <= k < i ==> (acks[k] <==> msgs[k].Some? && !AnyFails(|msgs[k].value.samples|, fails(k)))
        invariant forall k :: 0 <= k < i && acks[k] ==> Stands(msgs[k].value, written)
      {
        assert msgs[..i + 1][..i] == msgs[..i];
        ghost var before := written;
        var err := HandleMetricsMsg(msgs[i], fails(i));
        ghost var more := written[|before|..];
        assert written == before + more;
        forall k | 0 <= k < i && acks[k] ensures Stands(msgs[k].value, written) {
          StandsAfterMore(msgs[k].value, before, more);
        }
        if !err {
          ReachedAll(|msgs[i].value.samples|, fails(i));
          assert more == LabelledAll(msgs[i].value);
          assert StandsAt(msgs[i].value, written, |before|);
        }
        acks := acks + [!err];
      }
      assert msgs[..|msgs|] == msgs;
    }
  }

  lemma {:induction false} ReachedAll(n: nat, fails: nat -> bool)
    requires forall i :: 0 <= i < n ==> !fails(i)
    ensures Reached(n, fails) == n
  {
    if n == 0 {
    } else {
      ReachedAll(n - 1, fails);
    }
  }

  lemma {:induction false} ReachedStops(i: nat, n: nat, fails: nat -> bool)
    requires i < n && fails(i) && forall j :: 0 <= j < i ==> !fails(j)
    ensures Reached(n, fails) == i + 1 && AnyFails(n, fails)
  {
    if i + 1 < n {
      ReachedStops(i, n - 1, fails);
    } else {
      ReachedAll(i, fails);
    }
  }

  /** The labels every sample is written with: both core labels, its own values where it had them, and nothing else. */
  lemma CoreLabelsEnforced<V>(b: MetricsBatch<V>, i: nat)
    requires i < |b.samples|
    ensures var w, s := LabelledAll(b)[i], b.samples[i]; w.name == s.name && w.value == s.value && w.at == s.at
    ensures var own, labels := Own(b.samples[i]), LabelledAll(b)[i].labels;
            && labels.Keys == own.Keys + {"device_id", "source_protocol"}
            && (forall k :: k in own ==> labels[k] == own[k])
            && ("device_id" !in own ==> labels["device_id"] == b.deviceId)
            && ("source_protocol" !in own ==> labels["source_protocol"] == b.source)
  {}

  /** A refused message leaves a prefix behind. */
  lemma RefusedMessageLeavesPrefix<V>(b: MetricsBatch<V>, fails: nat -> bool)
    requires AnyFails(|b.samples|, fails)
    ensures 0 < |LabelledAll(b)[..Reached(|b.samples|, fails)]|
    ensures fails(Reached(|b.samples|, fails) - 1)
  {
    var i :| 0 <= i < |b.samples| && fails(i);
    FirstFailure(i, |b.samples|, fails);
  }

  lemma {:induction false} FirstFailure(i: nat, n: nat, fails: nat -> bool)
    requires i < n && fails(i)
    ensures 0 < Reached(n, fails) && fails(Reached(n, fails) - 1)
  {
    if i == n - 1 {
    } else {
      FirstFailure(i, n - 1, fails);
    }
  }
}
