/**
 * Which events share a row: the deduplication key (stableDedupe, backend/internal/ingest/ingester.go) together with the
 * insert-if-absent table (backend/internal/db/hardware_event_repository.go).
 */
module EventIdentity {
  import opened Common
  import opened StableDedupe
  import opened EventIngest

  ghost predicate Injective(sha: string -> string) {
    forall x, y :: sha(x) == sha(y) ==> x == y
  }

  /** Events that can be written at all are plain; undecodable messages and bad device ids may come between them. */
  ghost predicate PlainStream(stream: seq<Message>, lib: Library) {
    forall k :: 0 <= k < |stream| && RowOf(stream[k], lib).Ok? ==> Plain(stream[k].ev)
  }

  /** The key an event brings or is given. */
  function KeyOf(ev: HardwareEvent, lib: Library): string {
    if ev.dedupeKey == "" then lib.sha(DedupeText(ev)) else ev.dedupeKey
  }

  /** Without given keys: the same fields, or one message spells out the other's message and instant. */
  ghost predicate SameText(a: HardwareEvent, b: HardwareEvent) {
    FieldsOf(a) == FieldsOf(b) || SpelledOut(a, b) || SpelledOut(b, a)
  }

  /** A key that one event brings is the key of the other, on the same device. */
  ghost predicate SameGivenKey(a: HardwareEvent, b: HardwareEvent, lib: Library) {
    && (a.dedupeKey != "" || b.dedupeKey != "")
    && lib.parseUuid(a.deviceId) == lib.parseUuid(b.deviceId) && KeyOf(a, lib) == KeyOf(b, lib)
  }

  ghost predicate SharesRow(a: HardwareEvent, b: HardwareEvent, lib: Library) {
    if a.dedupeKey == "" && b.dedupeKey == "" then SameText(a, b) else SameGivenKey(a, b, lib)
  }

  /** Exactly which two plain events share a row. */
  lemma SameRowKeyIff(a: HardwareEvent, b: HardwareEvent, lib: Library)
    requires Injective(lib.sha) && Plain(a) && Plain(b)
    requires RowOf(Decoded(a), lib).Ok? && RowOf(Decoded(b), lib).Ok?
    ensures RowOf(Decoded(a), lib).value.Key() == RowOf(Decoded(b), lib).value.Key() <==> SharesRow(a, b, lib)
  {
    SameTextIff(a, b);
  }

  /** The content a row holds is that of a message of the stream. */
  lemma RowHasSource(row: Row, log: seq<nat>, stream: seq<Message>, lib: Library) returns (m: nat)
    requires FirstWriter(row, log, stream, lib)
    ensures m < |stream| && RowOf(stream[m], lib) == Ok(row) && stream[m] == Decoded(row.content)
  {
    var i :| 0 <= i < |log| && Writes(log[i], row, stream, lib)
      && forall j, other :: 0 <= j < i && Writes(log[j], other, stream, lib) ==> other.Key() != row.Key();
    m := log[i];
  }

  /**
   * What can swallow an event: an acknowledged event stands in the table, in exactly one row of its key, with its own
   * fields, or with those of an event whose text it shares, or of one that shares a given key.
   */
  lemma AckedStandsOrIsSwallowed(acts: seq<Action>, s: State, m: nat, stream: seq<Message>, lib: Library) returns (row: Row)
    requires Injective(lib.sha) && PlainStream(stream, lib)
    requires Reaches(EMPTY, acts, s, stream, lib) && m in s.acked
    ensures m < |stream| && RowOf(stream[m], lib).Ok?
    ensures row in s.rows && row.Key() == RowOf(stream[m], lib).value.Key()
    ensures forall other :: other in s.rows && other.Key() == row.Key() ==> other == row
    ensures var ev := stream[m].ev;
            || FieldsOf(row.content) == FieldsOf(ev)
            || (ev.dedupeKey == "" && row.content.dedupeKey == "" && (SpelledOut(ev, row.content) || SpelledOut(row.content, ev)))
            || SameGivenKey(ev, row.content, lib)
  {
    AckedExactlyOnce(acts, s, m, stream, lib);
    var i :| 0 <= i < |s.rows| && s.rows[i].Key() == RowOf(stream[m], lib).value.Key() && FirstWriter(s.rows[i], s.log, stream, lib)
      && forall j :: 0 <= j < |s.rows| && s.rows[j].Key() == RowOf(stream[m], lib).value.Key() ==> j == i;
    row := s.rows[i];
    var k := RowHasSource(row, s.log, stream, lib);
    SameRowKeyIff(stream[m].ev, row.content, lib);
  }

  /** Events that bring no keys and all have, or all lack, an instant. */
  ghost predicate Uniform(stream: seq<Message>, timed: bool, lib: Library) {
    forall k :: 0 <= k < |stream| && RowOf(stream[k], lib).Ok? ==>
      stream[k].ev.dedupeKey == "" && stream[k].ev.occurredAt.Some? == timed
  }

  /** Of such plain events no acknowledged one is ever lost: a row with its own fields is in the table. */
  lemma AckedStandsWithItsFields(acts: seq<Action>, s: State, m: nat, timed: bool, stream: seq<Message>, lib: Library)
    returns (row: Row)
    requires Injective(lib.sha) && PlainStream(stream, lib)
    requires Uniform(stream, timed, lib) && Reaches(EMPTY, acts, s, stream, lib) && m in s.acked
    ensures m < |stream| && RowOf(stream[m], lib).Ok? && row in s.rows && FieldsOf(row.content) == FieldsOf(stream[m].ev)
  {
    row := AckedStandsOrIsSwallowed(acts, s, m, stream, lib);
    InvRun(EMPTY, acts, s, stream, lib);
    var k := RowHasSource(row, s.log, stream, lib);
  }
}
