/**
 * Durable event ingest: the consumer loop (backend/internal/ingest/ingester.go) over a queue that delivers each message
 * at least once, and the insert-if-absent table behind it (backend/internal/db/hardware_event_repository.go).
 */
module EventIngest {
  import opened Common
  import opened StableDedupe

  /** What the JSON decoder makes of a message body. */
  datatype Message = Undecodable | Decoded(ev: HardwareEvent)

  /** The library calls the handler makes. */
  datatype Library = Library(parseUuid: string -> Option<string>, sha: string -> string)

  /** A row of hardware_events: the unique pair, and everything else that was written. */
  datatype Row = Row(deviceId: string, dedupeKey: string, content: HardwareEvent) {
    function Key(): (string, string) {
      (deviceId, dedupeKey)
    }
  }

  /** An insert can fail without effect, and it can take effect although the client sees an error. */
  datatype Outcome = Applied | Refused | AppliedUnseen

  function RowOf(msg: Message, lib: Library): Result<Row> {
    match msg
    case Undecodable => Err("decode hardware event")
    case Decoded(ev) =>
      match lib.parseUuid(ev.deviceId)
      case None => Err("invalid device_id")
      case Some(id) => Ok(Row(id, if ev.dedupeKey == "" then lib.sha(DedupeText(ev)) else ev.dedupeKey, ev))
  }

  predicate HasKey(rows: seq<Row>, key: (string, string)) {
    exists i :: 0 <= i < |rows| && rows[i].Key() == key
  }

  /** INSERT ... ON CONFLICT (device_id, dedupe_key) DO NOTHING. */
  function Insert(rows: seq<Row>, row: Row): seq<Row> {
    if HasKey(rows, row.Key()) then rows else rows + [row]
  }

  /** What handling writes: the parsed device, the key the event brings or else the hash of its text, and the event. */
  lemma RowOfIs(msg: Message, lib: Library)
    ensures msg.Undecodable? ==> RowOf(msg, lib).Err?
    ensures msg.Decoded? ==>
              match lib.parseUuid(msg.ev.deviceId)
              case None => RowOf(msg, lib).Err?
              case Some(id) =>
                && RowOf(msg, lib).Ok? && RowOf(msg, lib).value.deviceId == id && RowOf(msg, lib).value.content == msg.ev
                && RowOf(msg, lib).value.dedupeKey == (if msg.ev.dedupeKey == "" then lib.sha(DedupeText(msg.ev)) else msg.ev.dedupeKey)
  {}

  // --- Deliveries in any order, any number of times ---

  datatype Phase = Fetched | Succeeded | Failed | Acked | Naked

  datatype Delivery = Delivery(msg: nat, phase: Phase)

  /** `log` lists the messages whose insert took effect, repeats included, in the order the table saw them. */
  datatype State = State(rows: seq<Row>, deliveries: seq<Delivery>, log: seq<nat>, acked: set<nat>)

  datatype Action =
    | Deliver(msg: nat)
    | Handle(delivery: nat, outcome: Outcome)
    | Settle(delivery: nat)

  const EMPTY: State := State([], [], [], {})

  ghost predicate Enabled(s: State, a: Action, stream: seq<Message>) {
    match a
    case Deliver(m) => m < |stream|
    case Handle(d, _) => d < |s.deliveries| && s.deliveries[d].phase == Fetched && s.deliveries[d].msg < |stream|
    case Settle(d) => d < |s.deliveries| && s.deliveries[d].phase in {Succeeded, Failed}
  }

  function Next(s: State, a: Action, stream: seq<Message>, lib: Library): State
    requires a.Handle? ==> a.delivery < |s.deliveries| && s.deliveries[a.delivery].msg < |stream|
    requires a.Settle? ==> a.delivery < |s.deliveries|
  {
    match a
    case Deliver(m) => s.(deliveries := s.deliveries + [Delivery(m, Fetched)])
    case Handle(d, outcome) =>
      var m := s.deliveries[d].msg;
      var handled := RowOf(stream[m], lib);
      var succeeded := handled.Ok? && outcome == Applied;
      var s' := s.(deliveries := s.deliveries[d := Delivery(m, if succeeded then Succeeded else Failed)]);
      if handled.Ok? && outcome != Refused then s'.(rows := Insert(s.rows, handled.value), log := s.log + [m]) else s'
    case Settle(d) =>
      var m := s.deliveries[d].msg;
      if s.deliveries[d].phase == Succeeded then
        s.(deliveries := s.deliveries[d := Delivery(m, Acked)], acked := s.acked + {m})
      else s.(deliveries := s.deliveries[d := Delivery(m, Naked)])
  }

  ghost predicate Reaches(from: State, acts: seq<Action>, to: State, stream: seq<Message>, lib: Library)
    decreases |acts|
  {
    if acts == [] then from == to
    else Enabled(from, acts[0], stream) && Reaches(Next(from, acts[0], stream, lib), acts[1..], to, stream, lib)
  }

  /** Message `m` is well formed and `row` is what handling it writes. */
  ghost predicate Writes(m: nat, row: Row, stream: seq<Message>, lib: Library) {
    m < |stream| && RowOf(stream[m], lib) == Ok(row)
  }

  ghost predicate UniqueKeys(rows: seq<Row>) {
    forall i, j :: 0 <= i < j < |rows| ==> rows[i].Key() != rows[j].Key()
  }

  /** `row` was logged before every other row of its key. */
  ghost predicate FirstWriter(row: Row, log: seq<nat>, stream: seq<Message>, lib: Library) {
    exists i :: 0 <= i < |log| && Writes(log[i], row, stream, lib)
      && forall j, other :: 0 <= j < i && Writes(log[j], other, stream, lib) ==> other.Key() != row.Key()
  }

  ghost predicate LogWritten(s: State, stream: seq<Message>, lib: Library) {
    forall m :: m in s.log ==> m < |stream| && RowOf(stream[m], lib).Ok? && HasKey(s.rows, RowOf(stream[m], lib).value.Key())
  }

  ghost predicate RowsAreFirst(s: State, stream: seq<Message>, lib: Library) {
    forall r :: r in s.rows ==> FirstWriter(r, s.log, stream, lib)
  }

  ghost predicate SettledAreLogged(s: State) {
    && (forall m :: m in s.acked ==> m in s.log)
    && (forall d :: 0 <= d < |s.deliveries| && s.deliveries[d].phase in {Succeeded, Acked} ==> s.deliveries[d].msg in s.log)
  }

  ghost predicate Inv(s: State, stream: seq<Message>, lib: Library) {
    && UniqueKeys(s.rows)
    && LogWritten(s, stream, lib)
    && RowsAreFirst(s, stream, lib)
    && SettledAreLogged(s)
  }

  lemma HasKeyAfterInsert(rows: seq<Row>, row: Row, key: (string, string))
    ensures HasKey(Insert(rows, row), key) <==> HasKey(rows, key) || key == row.Key()
  {
    var rows' := Insert(rows, row);
    if HasKey(rows, key) {
      var i :| 0 <= i < |rows| && rows[i].Key() == key;
      assert rows'[i].Key() == key;
    }
    if key == row.Key() && !HasKey(rows, key) {
      assert rows'[|rows|].Key() == key;
    }
  }

  lemma FirstWriterStays(row: Row, log: seq<nat>, m: nat, stream: seq<Message>, lib: Library)
    requires FirstWriter(row, log, stream, lib)
    ensures FirstWriter(row, log + [m], stream, lib)
  {
    var i :| 0 <= i < |log| && Writes(log[i], row, stream, lib)
      && forall j, other :: 0 <= j < i && Writes(log[j], other, stream, lib) ==> other.Key() != row.Key();
    assert (log + [m])[i] == log[i];
  }

  lemma NewWriterIsFirst(s: State, m: nat, row: Row, stream: seq<Message>, lib: Library)
    requires LogWritten(s, stream, lib) && Writes(m, row, stream, lib) && !HasKey(s.rows, row.Key())
    ensures FirstWriter(row, s.log + [m], stream, lib)
  {
    var log' := s.log + [m];
    assert log'[|s.log|] == m;
    forall j, other | 0 <= j < |s.log| && Writes(log'[j], other, stream, lib)
      ensures other.Key() != row.Key()
    {
      assert s.log[j] in s.log;
    }
  }

  lemma InsertKeeps(s: State, m: nat, row: Row, stream: seq<Message>, lib: Library)
    requires Inv(s, stream, lib) && Writes(m, row, stream, lib)
    ensures Inv(s.(rows := Insert(s.rows, row), log := s.log + [m]), stream, lib)
  {
    var s' := s.(rows := Insert(s.rows, row), log := s.log + [m]);
    forall k ensures HasKey(s'.rows, k) <==> HasKey(s.rows, k) || k == row.Key() { HasKeyAfterInsert(s.rows, row, k); }
    forall r | r in s'.rows
      ensures FirstWriter(r, s'.log, stream, lib)
    {
      if r in s.rows {
        FirstWriterStays(r, s.log, m, stream, lib);
      } else {
        NewWriterIsFirst(s, m, row, stream, lib);
      }
    }
  }

  lemma InvStep(s: State, a: Action, stream: seq<Message>, lib: Library)
    requires Inv(s, stream, lib) && Enabled(s, a, stream)
    ensures Inv(Next(s, a, stream, lib), stream, lib)
  {
    if a.Handle? {
      var m := s.deliveries[a.delivery].msg;
      var handled := RowOf(stream[m], lib);
      if handled.Ok? && a.outcome != Refused {
        InsertKeeps(s, m, handled.value, stream, lib);
      }
    }
  }

  lemma {:induction false} InvRun(s: State, acts: seq<Action>, s': State, stream: seq<Message>, lib: Library)
    requires Inv(s, stream, lib) && Reaches(s, acts, s', stream, lib)
    ensures Inv(s', stream, lib)
    decreases |acts|
  {
    if acts == [] {
    } else {
      InvStep(s, acts[0], stream, lib);
      InvRun(Next(s, acts[0], stream, lib), acts[1..], s', stream, lib);
    }
  }

  /** A delivery that is handled and settled acknowledges its message exactly if the message is well formed and the insert succeeded. */
  lemma SettledAsHandled(s: State, d: nat, outcome: Outcome, stream: seq<Message>, lib: Library)
    requires Enabled(s, Handle(d, outcome), stream)
    ensures var handled := Next(s, Handle(d, outcome), stream, lib);
            && Enabled(handled, Settle(d), stream)
            && Next(handled, Settle(d), stream, lib).acked
               == if RowOf(stream[s.deliveries[d].msg], lib).Ok? && outcome == Applied then s.acked + {s.deliveries[d].msg} else s.acked
  {}

  // --- Results over every run ---

  /**
   * An acknowledged event is in the table in exactly one row of its key, and that row is the content of the first
   * message of that key whose insert took effect.
   */
  lemma AckedExactlyOnce(acts: seq<Action>, s: State, m: nat, stream: seq<Message>, lib: Library)
    requires Reaches(EMPTY, acts, s, stream, lib) && m in s.acked
    ensures m < |stream| && RowOf(stream[m], lib).Ok?
    ensures var key := RowOf(stream[m], lib).value.Key();
            exists i :: 0 <= i < |s.rows| && s.rows[i].Key() == key && FirstWriter(s.rows[i], s.log, stream, lib)
              && forall j :: 0 <= j < |s.rows| && s.rows[j].Key() == key ==> j == i
  {
    InvRun(EMPTY, acts, s, stream, lib);
    var key := RowOf(stream[m], lib).value.Key();
    var i :| 0 <= i < |s.rows| && s.rows[i].Key() == key;
    assert s.rows[i] in s.rows;
  }

  /** Handling a message again, with whatever outcome, leaves the table as it is. */
  lemma RedeliveryChangesNothing(acts: seq<Action>, s: State, d: nat, outcome: Outcome, stream: seq<Message>, lib: Library)
    requires Reaches(EMPTY, acts, s, stream, lib)
    requires Enabled(s, Handle(d, outcome), stream) && s.deliveries[d].msg in s.log
    ensures Next(s, Handle(d, outcome), stream, lib).rows == s.rows
  {
    InvRun(EMPTY, acts, s, stream, lib);
  }

  ghost function Keys(rows: seq<Row>): set<(string, string)> {
    set r | r in rows :: r.Key()
  }

  /** The keys in the table are the keys of the messages handled: neither their order nor their repeats matter. */
  lemma KeysAreThoseHandled(acts: seq<Action>, s: State, key: (string, string), stream: seq<Message>, lib: Library)
    requires Reaches(EMPTY, acts, s, stream, lib)
    ensures key in Keys(s.rows) <==> exists m :: m in s.log && m < |stream| && RowOf(stream[m], lib).Ok? && RowOf(stream[m], lib).value.Key() == key
  {
    InvRun(EMPTY, acts, s, stream, lib);
    if key in Keys(s.rows) {
      var r :| r in s.rows && r.Key() == key;
      var i :| 0 <= i < |s.log| && Writes(s.log[i], r, stream, lib);
      assert s.log[i] in s.log;
    }
    if m :| m in s.log && m < |stream| && RowOf(stream[m], lib).Ok? && RowOf(stream[m], lib).value.Key() == key {
      var i :| 0 <= i < |s.rows| && s.rows[i].Key() == key;
      assert s.rows[i] in s.rows;
    }
  }

  /** No two of the handled messages share a key and differ in content. */
  ghost predicate OneContentPerKey(log: seq<nat>, stream: seq<Message>, lib: Library) {
    forall m, m', r, r' | m in log && m' in log && Writes(m, r, stream, lib) && Writes(m', r', stream, lib) ::
      r.Key() == r'.Key() ==> r == r'
  }

  /** Two runs that handled the same messages end with the same keys; and with the same rows if no key has two contents. */
  lemma OrderAndRepeatsDoNotMatter(acts: seq<Action>, s: State, acts': seq<Action>, s': State, stream: seq<Message>, lib: Library)
    requires Reaches(EMPTY, acts, s, stream, lib) && Reaches(EMPTY, acts', s', stream, lib)
    requires forall m :: m in s.log <==> m in s'.log
    ensures Keys(s.rows) == Keys(s'.rows)
    ensures OneContentPerKey(s.log, stream, lib) ==> (set r | r in s.rows) == (set r | r in s'.rows)
  {
    forall key ensures key in Keys(s.rows) <==> key in Keys(s'.rows) {
      KeysAreThoseHandled(acts, s, key, stream, lib);
      KeysAreThoseHandled(acts', s', key, stream, lib);
    }
    if OneContentPerKey(s.log, stream, lib) {
      forall r | r in s.rows ensures r in s'.rows { SameRow(acts, s, acts', s', r, stream, lib); }
      forall r | r in s'.rows ensures r in s.rows { SameRow(acts', s', acts, s, r, stream, lib); }
    }
  }

  lemma SameRow(acts: seq<Action>, s: State, acts': seq<Action>, s': State, r: Row, stream: seq<Message>, lib: Library)
    requires Reaches(EMPTY, acts, s, stream, lib) && Reaches(EMPTY, acts', s', stream, lib)
    requires forall m :: m in s.log <==> m in s'.log
    requires OneContentPerKey(s.log, stream, lib)
    requires r in s.rows
    ensures r in s'.rows
  {
    InvRun(EMPTY, acts, s, stream, lib);
    InvRun(EMPTY, acts', s', stream, lib);
    var i :| 0 <= i < |s.log| && Writes(s.log[i], r, stream, lib);
    assert s.log[i] in s.log;
    var k :| 0 <= k < |s'.rows| && s'.rows[k].Key() == r.Key();
    assert s'.rows[k] in s'.rows;
    var i' :| 0 <= i' < |s'.log| && Writes(s'.log[i'], s'.rows[k], stream, lib);
    assert s'.log[i'] in s'.log;
  }

  // --- The repository and the consumer ---

  class HardwareEventRepository {
    var rows: seq<Row>

    constructor ()
      ensures rows == []
    {
      rows := [];
    }

    /** One INSERT; the returned flag is the error the caller sees. */
    method InsertIfNotExists(row: Row, outcome: Outcome) returns (err: bool)
      modifies this
      ensures rows == if outcome == Refused then old(rows) else Insert(old(rows), row)
      ensures err <==> outcome != Applied
    {
      if outcome != Refused {
        var i := 0;
        while i < |rows| && rows[i].Key() != row.Key()
          invariant 0 <= i <= |rows| && rows == old(rows)
          invariant forall j :: 0 <= j < i ==> rows[j].Key() != row.Key()
        {
          i := i + 1;
        }
        if i == |rows| {
          rows := rows + [row];
        }
      }
      return outcome != Applied;
    }
  }

  /** The table after handling `msgs` one after the other. */
  function HandleAll(rows: seq<Row>, msgs: seq<Message>, outcome: nat -> Outcome, lib: Library): seq<Row>
    decreases |msgs|
  {
    if msgs == [] then rows else
      var n := |msgs| - 1;
      var before, handled := HandleAll(rows, msgs[..n], outcome, lib), RowOf(msgs[n], lib);
      if handled.Ok? && outcome(n) != Refused then Insert(before, handled.value) else before
  }

  lemma InsertKeepsKeys(rows: seq<Row>, msg: Message, lib: Library)
    ensures RowOf(msg, lib).Ok? ==>
              var row := RowOf(msg, lib).value;
              HasKey(Insert(rows, row), row.Key()) && forall key :: HasKey(rows, key) ==> HasKey(Insert(rows, row), key)
  {
    if RowOf(msg, lib).Ok? {
      var row := RowOf(msg, lib).value;
      HasKeyAfterInsert(rows, row, row.Key());
      forall key ensures HasKey(rows, key) ==> HasKey(Insert(rows, row), key) { HasKeyAfterInsert(rows, row, key); }
    }
  }

  class Ingester {
    const repo: HardwareEventRepository
    const lib: Library

    constructor (repo: HardwareEventRepository, lib: Library)
      ensures this.repo == repo && this.lib == lib
    {
      this.repo, this.lib := repo, lib;
    }

    method HandleEventMsg(msg: Message, outcome: Outcome) returns (err: bool)
      modifies repo
      ensures err <==> RowOf(msg, lib).Err? || outcome != Applied
      ensures repo.rows ==
              if RowOf(msg, lib).Ok? && outcome != Refused then Insert(old(repo.rows), RowOf(msg, lib).value) else old(repo.rows)
    {
      match msg
      case Undecodable => return true;
      case Decoded(ev) =>
        var parsed := lib.parseUuid(ev.deviceId);
        if parsed.None? {
          return true;
        }
        var dedupe := ev.dedupeKey;
        if dedupe == "" {
          dedupe := Hash(ev, lib.sha);
        }
        err := repo.InsertIfNotExists(Row(parsed.value, dedupe, ev), outcome);
    }

    /** One fetched batch of the consumer loop: every message is acknowledged or refused, in order. */
    method ConsumeFetched(msgs: seq<Message>, outcome: nat -> Outcome) returns (acks: seq<bool>)
      modifies repo
      ensures |acks| == |msgs|
      ensures forall i :: 0 <= i < |msgs| ==> (acks[i] <==> RowOf(msgs[i], lib).Ok? && outcome(i) == Applied)
      ensures repo.rows == HandleAll(old(repo.rows), msgs, outcome, lib)
      ensures forall i :: 0 <= i < |msgs| && acks[i] ==> HasKey(repo.rows, RowOf(msgs[i], lib).value.Key())
    {
      acks := [];
      for i := 0 to |msgs|
        invariant |acks| == i
        invariant forall j :: 0 <= j < i ==> (acks[j] <==> RowOf(msgs[j], lib).Ok? && outcome(j) == Applied)
        invariant repo.rows == HandleAll(old(repo.rows), msgs[..i], outcome, lib)
        invariant forall j :: 0 <= j < i && acks[j] ==> HasKey(repo.rows, RowOf(msgs[j], lib).value.Key())
      {
        assert msgs[..i + 1][..i] == msgs[..i];
        ghost var before := repo.rows;
        var err := HandleEventMsg(msgs[i], outcome(i));
        acks := acks + [!err];
        InsertKeepsKeys(before, msgs[i], lib);
      }
      assert msgs[..|msgs|] == msgs;
    }
  }
}
