/**
 * The deduplication key computed for events that bring none (stableDedupe, backend/internal/ingest/ingester.go).
 * SHA-256 (FIPS 180-4) is a function given by the caller; what is studied here is the text that goes into it.
 */
module StableDedupe {
  import opened Common
  import Strings

  /** `occurredAt` is the instant as RFC 3339 text (section 5.6), in UTC; `details` are the columns no key depends on. */
  datatype HardwareEvent = HardwareEvent(
    deviceId: string, source: string, component: string, eventType: string, severity: string,
    message: string, occurredAt: Option<string>, dedupeKey: string, details: string)

  const SEPARATOR: string := "|"

  predicate NoSeparator(s: string) {
    '|' !in s
  }

  /** The text written into the hash. */
  function DedupeText(ev: HardwareEvent): string {
    var text := ev.deviceId + SEPARATOR + ev.source + SEPARATOR + ev.component + SEPARATOR
              + ev.eventType + SEPARATOR + ev.severity + SEPARATOR + ev.message;
    match ev.occurredAt
    case None => text
    case Some(at) => text + SEPARATOR + at
  }

  class Hasher {
    var written: string

    constructor ()
      ensures written == ""
    {
      written := "";
    }

    method Write(s: string)
      modifies this
      ensures written == old(written) + s
    {
      written := written + s;
    }
  }

  /** stableDedupe, piece by piece. */
  method Hash(ev: HardwareEvent, sha: string -> string) returns (key: string)
    ensures key == sha(DedupeText(ev))
  {
    var h := new Hasher();
    h.Write(ev.deviceId);
    assert h.written == ev.deviceId;
    h.Write(SEPARATOR);
    h.Write(ev.source);
    h.Write(SEPARATOR);
    h.Write(ev.component);
    h.Write(SEPARATOR);
    h.Write(ev.eventType);
    h.Write(SEPARATOR);
    h.Write(ev.severity);
    h.Write(SEPARATOR);
    h.Write(ev.message);
    if ev.occurredAt.Some? {
      h.Write(SEPARATOR);
      h.Write(ev.occurredAt.value);
    }
    return sha(h.written);
  }

  // --- Reading the text back ---

  /** The position of the first separator, or the length of the text. */
  function First(s: string): (i: nat)
    ensures i <= |s|
  {
    if s == "" || s[0] == '|' then 0 else 1 + First(s[1..])
  }

  /** The position of the last separator, or zero. */
  function Last(s: string): (i: nat)
    ensures s != "" ==> i < |s|
    ensures s == "" ==> i == 0
    decreases |s|
  {
    if s == "" || s[|s| - 1] == '|' then Max(|s| - 1, 0) else Last(s[..|s| - 1])
  }

  /** What stands before and after the first separator. */
  function Cut(s: string): (string, string) {
    var i := First(s);
    (s[..i], if i < |s| then s[i + 1..] else "")
  }

  function CutLast(s: string): (string, string) {
    var i := Last(s);
    (s[..i], if i < |s| then s[i + 1..] else "")
  }

  /** The seven values a text carries, when it is known whether an instant was written. */
  datatype Fields = Fields(
    deviceId: string, source: string, component: string, eventType: string, severity: string,
    message: string, occurredAt: Option<string>)

  function FieldsOf(ev: HardwareEvent): Fields {
    Fields(ev.deviceId, ev.source, ev.component, ev.eventType, ev.severity, ev.message, ev.occurredAt)
  }

  function Recover(text: string, timed: bool): Fields {
    var (deviceId, r1) := Cut(text);
    var (source, r2) := Cut(r1);
    var (component, r3) := Cut(r2);
    var (eventType, r4) := Cut(r3);
    var (severity, r5) := Cut(r4);
    if timed then
      var (message, at) := CutLast(r5);
      Fields(deviceId, source, component, eventType, severity, message, Some(at))
    else Fields(deviceId, source, component, eventType, severity, r5, None)
  }

  lemma {:induction false} CutJoined(a: string, rest: string)
    requires NoSeparator(a)
    ensures Cut(a + "|" + rest) == (a, rest)
  {
    var s := a + "|" + rest;
    if a == "" {
      assert s[0] == '|';
    } else {
      CutJoined(a[1..], rest);
      assert s[1..] == a[1..] + "|" + rest;
      assert s[0] == a[0] && a[0] in a;
    }
    assert s[|a| + 1..] == rest && s[..|a|] == a;
  }

  lemma {:induction false} LastJoined(message: string, at: string)
    requires NoSeparator(at)
    ensures Last(message + "|" + at) == |message|
    decreases |at|
  {
    var s := message + "|" + at;
    if at == "" {
    } else {
      var front := at[..|at| - 1];
      LastJoined(message, front);
      assert s[..|s| - 1] == message + "|" + front;
      assert s[|s| - 1] == at[|at| - 1] && at[|at| - 1] in at;
    }
  }

  lemma CutLastJoined(message: string, at: string)
    requires NoSeparator(at)
    ensures CutLast(message + "|" + at) == (message, at)
  {
    LastJoined(message, at);
    var s := message + "|" + at;
    assert s[|message| + 1..] == at && s[..|message|] == message;
  }

  /** The five leading fields and the instant are free of separators; the message is any text. */
  ghost predicate Plain(ev: HardwareEvent) {
    && NoSeparator(ev.deviceId) && NoSeparator(ev.source) && NoSeparator(ev.component)
    && NoSeparator(ev.eventType) && NoSeparator(ev.severity)
    && (ev.occurredAt.Some? ==> NoSeparator(ev.occurredAt.value))
  }

  /** What follows the fifth separator. */
  function Tail(ev: HardwareEvent): string {
    match ev.occurredAt
    case None => ev.message
    case Some(at) => ev.message + "|" + at
  }

  lemma DedupeTextNested(ev: HardwareEvent)
    ensures DedupeText(ev) == ev.deviceId + "|" + (ev.source + "|" + (ev.component + "|"
                            + (ev.eventType + "|" + (ev.severity + "|" + Tail(ev)))))
  {
    var p1 := ev.deviceId + "|";
    var p2 := p1 + ev.source + "|";
    var p3 := p2 + ev.component + "|";
    var p4 := p3 + ev.eventType + "|";
    var t5 := Tail(ev);
    var t4 := ev.severity + "|" + t5;
    var t3 := ev.eventType + "|" + t4;
    var t2 := ev.component + "|" + t3;
    assert DedupeText(ev) == p4 + ev.severity + "|" + t5 by {
      if ev.occurredAt.Some? { Regroup(p4 + ev.severity + "|", ev.message, ev.occurredAt.value); }
    }
    Regroup(p4, ev.severity, t5);
    Regroup(p3, ev.eventType, t4);
    Regroup(p2, ev.component, t3);
    Regroup(p1, ev.source, t2);
  }

  lemma Regroup(p: string, a: string, rest: string)
    ensures p + a + "|" + rest == p + (a + "|" + rest)
  {}

  /** The text can be read back, whatever separators the free-text message contains. */
  lemma RoundTrip(ev: HardwareEvent)
    requires Plain(ev)
    ensures Recover(DedupeText(ev), ev.occurredAt.Some?) == FieldsOf(ev)
  {
    var t5 := Tail(ev);
    var t4 := ev.severity + "|" + t5;
    var t3 := ev.eventType + "|" + t4;
    var t2 := ev.component + "|" + t3;
    var t1 := ev.source + "|" + t2;
    DedupeTextNested(ev);
    CutJoined(ev.deviceId, t1);
    CutJoined(ev.source, t2);
    CutJoined(ev.component, t3);
    CutJoined(ev.eventType, t4);
    CutJoined(ev.severity, t5);
    if ev.occurredAt.Some? {
      CutLastJoined(ev.message, ev.occurredAt.value);
    }
  }

  /** The fields stand in the text in this order, with a bar between any two, when none of them holds one. */
  lemma FieldsInOrder(ev: HardwareEvent)
    requires Plain(ev) && NoSeparator(ev.message)
    ensures Strings.Split(DedupeText(ev), '|')
         == [ev.deviceId, ev.source, ev.component, ev.eventType, ev.severity, ev.message]
            + (if ev.occurredAt.Some? then [ev.occurredAt.value] else [])
  {
    var last := if ev.occurredAt.Some? then [ev.message, ev.occurredAt.value] else [ev.message];
    var fields := [ev.deviceId, ev.source, ev.component, ev.eventType, ev.severity] + last;
    assert Strings.Join(last, "|") == Tail(ev);
    JoinedFields(ev.deviceId, ev.source, ev.component, ev.eventType, ev.severity, last);
    DedupeTextNested(ev);
    Strings.SplitJoined(fields, '|');
  }

  lemma JoinOne(a: string, rest: seq<string>)
    requires rest != []
    ensures Strings.Join([a] + rest, "|") == a + "|" + Strings.Join(rest, "|")
  {
    assert ([a] + rest)[1..] == rest;
  }

  lemma JoinedFields(a: string, b: string, c: string, d: string, e: string, last: seq<string>)
    requires last != []
    ensures Strings.Join([a, b, c, d, e] + last, "|")
         == a + "|" + (b + "|" + (c + "|" + (d + "|" + (e + "|" + Strings.Join(last, "|")))))
  {
    JoinOne(e, last);
    JoinOne(d, [e] + last);
    JoinOne(c, [d] + ([e] + last));
    JoinOne(b, [c] + ([d] + ([e] + last)));
    JoinOne(a, [b] + ([c] + ([d] + ([e] + last))));
    assert [a, b, c, d, e] + last == [a] + ([b] + ([c] + ([d] + ([e] + last))));
  }

  /** The five leading fields of two events agree, and so do the texts after them. */
  ghost predicate SameHead(a: HardwareEvent, b: HardwareEvent) {
    && a.deviceId == b.deviceId && a.source == b.source && a.component == b.component
    && a.eventType == b.eventType && a.severity == b.severity
  }

  /** The one confusion that is possible: the message of the untimed event spells out the timed one's message and instant. */
  ghost predicate SpelledOut(timed: HardwareEvent, untimed: HardwareEvent) {
    && timed.occurredAt.Some? && untimed.occurredAt.None? && SameHead(timed, untimed)
    && untimed.message == timed.message + "|" + timed.occurredAt.value
  }

  /** Exactly which pairs of events share a text. */
  lemma SameTextIff(a: HardwareEvent, b: HardwareEvent)
    requires Plain(a) && Plain(b)
    ensures DedupeText(a) == DedupeText(b) <==> FieldsOf(a) == FieldsOf(b) || SpelledOut(a, b) || SpelledOut(b, a)
  {
    RoundTrip(a);
    RoundTrip(b);
    DedupeTextNested(a);
    DedupeTextNested(b);
    if DedupeText(a) == DedupeText(b) && a.occurredAt.Some? != b.occurredAt.Some? {
      var (timed, untimed) := if a.occurredAt.Some? then (a, b) else (b, a);
      var spelled := timed.(message := Tail(timed), occurredAt := None);
      DedupeTextNested(spelled);
      RoundTrip(spelled);
    }
  }

  /** Among events that all bring an instant, or all bring none, distinct events have distinct keys. */
  lemma DistinctEventsDistinctKeys(a: HardwareEvent, b: HardwareEvent, sha: string -> string)
    requires Plain(a) && Plain(b) && a.occurredAt.Some? == b.occurredAt.Some?
    requires forall x, y :: sha(x) == sha(y) ==> x == y
    ensures sha(DedupeText(a)) == sha(DedupeText(b)) <==> FieldsOf(a) == FieldsOf(b)
  {
    SameTextIff(a, b);
  }

  /** Mixed presence does collide. */
  lemma MixedPresenceCollides()
    ensures var timed := HardwareEvent("d", "ipmi", "psu", "sel", "info", "x", Some("2024-01-01T00:00:00Z"), "", "");
            var untimed := timed.(message := "x|2024-01-01T00:00:00Z", occurredAt := None);
            DedupeText(timed) == DedupeText(untimed) && FieldsOf(timed) != FieldsOf(untimed)
  {
    var timed := HardwareEvent("d", "ipmi", "psu", "sel", "info", "x", Some("2024-01-01T00:00:00Z"), "", "");
    var untimed := timed.(message := "x|2024-01-01T00:00:00Z", occurredAt := None);
    assert SpelledOut(timed, untimed);
    SameTextIff(timed, untimed);
  }
}
