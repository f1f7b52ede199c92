/**
 * The two readers of the System Event Log: the metric counter (parseSELEntries,
 * collectors/ipmi-collector/internal/collector/ipmitool.go) and the event normaliser (normalizeSEL, retry.go beside it).
 * Lower-casing is a table given by the caller; lengths are counted in characters.
 */
module Sel {
  import opened Common
  import opened Strings

  datatype Severity = Info | Warning | Critical

  function Rank(s: Severity): nat {
    match s
    case Info => 0
    case Warning => 1
    case Critical => 2
  }

  predicate SaysCritical(text: string) {
    Contains(text, "critical") || Contains(text, "non-recoverable") || Contains(text, "failure")
  }

  predicate SaysWarning(text: string) {
    Contains(text, "warning") || Contains(text, "non-critical") || Contains(text, "degraded")
  }

  /** The case analysis both readers make of a lower-cased text. */
  function Classify(text: string): Severity {
    if SaysCritical(text) then Critical else if SaysWarning(text) then Warning else Info
  }

  /** What the counter looks at: the fifth field, trimmed. */
  function CounterSeverity(line: string, lower: char -> char): Severity
    requires |Split(line, '|')| >= 5
  {
    Classify(ToLower(Trim(Split(line, '|')[4]), lower))
  }

  /** What the normaliser looks at: the whole line. */
  function EventSeverity(line: string, lower: char -> char): Severity {
    Classify(ToLower(line, lower))
  }

  lemma ClassifyPart(text: string, part: string)
    requires Contains(text, part)
    ensures Rank(Classify(part)) <= Rank(Classify(text))
  {
    forall word | Contains(part, word) ensures Contains(text, word) { ContainsTransitive(text, part, word); }
  }

  /** On one line the event is never less severe than the count. */
  lemma EventDominatesCount(line: string, lower: char -> char)
    requires |Split(line, '|')| >= 5
    ensures Rank(CounterSeverity(line, lower)) <= Rank(EventSeverity(line, lower))
  {
    var field := Split(line, '|')[4];
    SplitIsPart(line, '|', 4);
    TrimIsPart(field);
    ContainsTransitive(line, field, Trim(field));
    ContainsLower(line, Trim(field), lower);
    ClassifyPart(ToLower(line, lower), ToLower(Trim(field), lower));
  }

  /** "non-critical" is documented as a warning; it contains "critical", so no text that says it is ever one. */
  lemma NonCriticalIsCritical(text: string)
    ensures Contains(text, "non-critical") ==> Classify(text) == Critical
    ensures Classify(text).Critical? <==> Contains(text, "critical") || Contains(text, "non-recoverable") || Contains(text, "failure")
    ensures Classify(text).Warning? <==> !Classify(text).Critical? && (Contains(text, "warning") || Contains(text, "degraded"))
  {
    if Contains(text, "non-critical") {
      ContainsSlice("non-critical", 4, 12);
      assert "non-critical"[4..12] == "critical";
      ContainsTransitive(text, "non-critical", "critical");
    }
  }

  /** What makes an event critical, or a warning, is said anywhere in its line. */
  lemma EventSeverityIff(line: string, lower: char -> char)
    ensures var text, severity := ToLower(line, lower), EventSeverity(line, lower);
            && (severity.Critical? <==> Contains(text, "critical") || Contains(text, "non-recoverable") || Contains(text, "failure"))
            && (severity.Warning? <==> !severity.Critical? && (Contains(text, "warning") || Contains(text, "degraded")))
  {
    NonCriticalIsCritical(ToLower(line, lower));
  }

  /** A line of fields is counted exactly with five or more, and by its fifth field alone, trimmed. */
  lemma FifthFieldDecides(fields: seq<string>, lower: char -> char)
    requires fields != [] && forall i :: 0 <= i < |fields| ==> '|' !in fields[i]
    ensures HasFields(Join(fields, "|")) <==> |fields| >= 5
    ensures |fields| >= 5 ==> CounterSeverity(Join(fields, "|"), lower) == Classify(ToLower(Trim(fields[4]), lower))
  {
    SplitJoined(fields, '|');
  }

  // --- Lines ---

  const MAX_LINE: nat := 65535
  const NO_ENTRIES: string := "SEL has no entries"

  function DropCR(s: string): string {
    if s != "" && s[|s| - 1] == '\r' then s[..|s| - 1] else s
  }

  /** The line scanner: no empty last line, no carriage return, and an end at the first line that is too long for it. */
  function Scan(output: string): seq<string>
    decreases |output|
  {
    var i := Find(output, '\n');
    if output == "" || i > MAX_LINE then []
    else if i == |output| then [DropCR(output)]
    else [DropCR(output[..i])] + Scan(output[i + 1..])
  }

  predicate IsEntry(line: string) {
    line != "" && !HasPrefix(line, NO_ENTRIES)
  }

  /** The trimmed lines that are entries. */
  function Entries(lines: seq<string>): seq<string>
    decreases |lines|
  {
    if lines == [] then [] else
      var line, rest := Trim(lines[0]), Entries(lines[1..]);
      if IsEntry(line) then [line] + rest else rest
  }

  /** Every line fits into the scanner. */
  ghost predicate FitsScanner(output: string)
    decreases |output|
  {
    var i := Find(output, '\n');
    i <= MAX_LINE && (i < |output| ==> FitsScanner(output[i + 1..]))
  }

  /** A line of up to 65535 characters is scanned and the rest goes on; a longer one ends the scan. */
  lemma ScannerLimit(line: string, rest: string)
    requires '\n' !in line
    ensures |line| <= 65535 ==>
              Scan(line + "\n" + rest) == [if line != "" && line[|line| - 1] == '\r' then line[..|line| - 1] else line] + Scan(rest)
    ensures |line| > 65535 ==> Scan(line + "\n" + rest) == []
  {
    assert line + "\n" + rest == line + ("\n" + rest);
    FindIs(line, "\n" + rest, '\n');
    assert (line + ("\n" + rest))[..|line|] == line && (line + ("\n" + rest))[|line| + 1..] == rest;
  }

  /** The lines that are no entries. */
  lemma EntryIff(line: string)
    ensures IsEntry(line) <==> line != "" && !exists rest :: line == "SEL has no entries" + rest
  {
    if HasPrefix(line, NO_ENTRIES) {
      assert line == "SEL has no entries" + line[|NO_ENTRIES|..];
    }
    if rest :| line == "SEL has no entries" + rest {
      assert line[..|NO_ENTRIES|] == NO_ENTRIES;
    }
  }

  lemma TrimDropsCR(s: string)
    ensures Trim(DropCR(s)) == Trim(s)
  {}

  /** The counter's entries are the first of the normaliser's entries: all of them when every line fits the scanner. */
  lemma {:induction false} ScannedEntriesAreFirst(output: string)
    ensures Entries(Scan(output)) <= Entries(Split(output, '\n'))
    ensures FitsScanner(output) ==> Entries(Scan(output)) == Entries(Split(output, '\n'))
    decreases |output|
  {
    var i := Find(output, '\n');
    if output == "" {
      assert Trim("") == "";
      assert Split("", '\n') == [""] && [""][1..] == [];
    } else if i > MAX_LINE {
    } else if i == |output| {
      TrimDropsCR(output);
      assert [DropCR(output)][1..] == [] && [output][1..] == [];
    } else {
      TrimDropsCR(output[..i]);
      ScannedEntriesAreFirst(output[i + 1..]);
      EntriesCons(DropCR(output[..i]), Scan(output[i + 1..]));
      EntriesCons(output[..i], Split(output[i + 1..], '\n'));
    }
  }

  lemma EntriesCons(line: string, rest: seq<string>)
    ensures Entries([line] + rest) == if IsEntry(Trim(line)) then [Trim(line)] + Entries(rest) else Entries(rest)
  {
    assert ([line] + rest)[1..] == rest;
  }

  // --- Totals ---

  /** An entry the counter counts: one with at least five fields. */
  predicate HasFields(line: string) {
    |Split(line, '|')| >= 5
  }

  ghost function CountedAs(entries: seq<string>, sev: Severity, lower: char -> char): nat {
    if entries == [] then 0 else
      (if HasFields(entries[0]) && CounterSeverity(entries[0], lower) == sev then 1 else 0)
        + CountedAs(entries[1..], sev, lower)
  }

  ghost function EventsAs(entries: seq<string>, sev: Severity, lower: char -> char): nat {
    if entries == [] then 0 else
      (if EventSeverity(entries[0], lower) == sev then 1 else 0) + EventsAs(entries[1..], sev, lower)
  }

  lemma {:induction false} CountsSum(entries: seq<string>, lower: char -> char)
    ensures CountedAs(entries, Critical, lower) + CountedAs(entries, Warning, lower) + CountedAs(entries, Info, lower)
         == |Filter(entries, HasFields)|
  {
    if entries == [] {
    } else {
      CountsSum(entries[1..], lower);
    }
  }

  /** How many events of a severity there are among the entries, and how many counted ones. */
  lemma {:induction false} TotalsAre(entries: seq<string>, sev: Severity, lower: char -> char)
    ensures EventsAs(entries, sev, lower) == |Filter(entries, e => EventSeverity(e, lower) == sev)|
    ensures CountedAs(entries, sev, lower) == |Filter(entries, e => HasFields(e) && CounterSeverity(e, lower) == sev)|
  {
    if entries == [] {
    } else {
      TotalsAre(entries[1..], sev, lower);
    }
  }

  /** Entry by entry, and for any longer list of entries, the events dominate the counts. */
  lemma {:induction false} TotalsDominate(counted: seq<string>, all: seq<string>, lower: char -> char)
    requires counted <= all
    ensures CountedAs(counted, Critical, lower) <= EventsAs(all, Critical, lower)
    ensures CountedAs(counted, Critical, lower) + CountedAs(counted, Warning, lower)
         <= EventsAs(all, Critical, lower) + EventsAs(all, Warning, lower)
    decreases |counted|
  {
    if counted == [] {
    } else {
      TotalsDominate(counted[1..], all[1..], lower);
      if HasFields(counted[0]) { EventDominatesCount(counted[0], lower); }
    }
  }

  /** On every output, long lines or not: more critical events than critical counts, and so for critical and warning together. */
  lemma EventsDominateCounts(output: string, lower: char -> char)
    ensures var counted, all := Entries(Scan(output)), Entries(Split(output, '\n'));
            && CountedAs(counted, Critical, lower) <= EventsAs(all, Critical, lower)
            && CountedAs(counted, Critical, lower) + CountedAs(counted, Warning, lower)
               <= EventsAs(all, Critical, lower) + EventsAs(all, Warning, lower)
  {
    ScannedEntriesAreFirst(output);
    TotalsDominate(Entries(Scan(output)), Entries(Split(output, '\n')), lower);
  }

  // --- The readers ---

  lemma {:induction false} CountedAppend(entries: seq<string>, line: string, sev: Severity, lower: char -> char)
    ensures CountedAs(entries + [line], sev, lower)
         == CountedAs(entries, sev, lower) + (if HasFields(line) && CounterSeverity(line, lower) == sev then 1 else 0)
  {
    if entries == [] {
      assert [] + [line] == [line] && [line][1..] == [];
    } else {
      CountedAppend(entries[1..], line, sev, lower);
      assert (entries + [line])[1..] == entries[1..] + [line];
    }
  }

  lemma {:induction false} EntriesAppend(lines: seq<string>, line: string)
    ensures Entries(lines + [line]) == if IsEntry(Trim(line)) then Entries(lines) + [Trim(line)] else Entries(lines)
  {
    if lines == [] {
      assert [] + [line] == [line] && [line][1..] == [];
    } else {
      EntriesAppend(lines[1..], line);
      assert (lines + [line])[1..] == lines[1..] + [line];
    }
  }

  type Counts = map<Severity, nat>

  /** The counts are those of `entries`. */
  ghost predicate CountsOf(counts: Counts, entries: seq<string>, lower: char -> char) {
    && counts.Keys == {Critical, Warning, Info}
    && forall sev :: sev in counts ==> counts[sev] == CountedAs(entries, sev, lower)
  }

  method ParseSELEntries(output: string, lower: char -> char) returns (counts: Counts)
    ensures CountsOf(counts, Entries(Scan(output)), lower)
    ensures counts[Critical] + counts[Warning] + counts[Info] == |Filter(Entries(Scan(output)), HasFields)|
  {
    counts := map[Critical := 0, Warning := 0, Info := 0];
    var lines := Scan(output);
    for i := 0 to |lines|
      invariant CountsOf(counts, Entries(lines[..i]), lower)
    {
      assert lines[..i + 1] == lines[..i] + [lines[i]];
      EntriesAppend(lines[..i], lines[i]);
      var line := Trim(lines[i]);
      if line == "" || HasPrefix(line, NO_ENTRIES) {
        continue;
      }
      counts := CountEntry(counts, Entries(lines[..i]), line, lower);
    }
    assert lines[..|lines|] == lines;
    CountsSum(Entries(lines), lower);
  }

  /** The part of the loop body that looks at an entry. */
  method CountEntry(before: Counts, ghost entries: seq<string>, line: string, lower: char -> char) returns (counts: Counts)
    requires CountsOf(before, entries, lower)
    ensures CountsOf(counts, entries + [line], lower)
  {
    forall sev: Severity { CountedAppend(entries, line, sev, lower); }
    counts := before;
    var fields := Split(line, '|');
    if |fields| < 5 {
      return;
    }
    var description := ToLower(Trim(fields[4]), lower);
    if Contains(description, "critical") || Contains(description, "non-recoverable") || Contains(description, "failure") {
      counts := counts[Critical := counts[Critical] + 1];
    } else if Contains(description, "warning") || Contains(description, "non-critical") || Contains(description, "degraded") {
      counts := counts[Warning := counts[Warning] + 1];
    } else {
      counts := counts[Info := counts[Info] + 1];
    }
  }

  datatype Event = Event(deviceId: string, severity: Severity, message: string, dedupeKey: string)

  /** One event per entry, in order. */
  function EventOf(deviceId: string, line: string, lower: char -> char, sha: string -> string): Event {
    Event(deviceId, EventSeverity(line, lower), line, sha(line))
  }

  method NormalizeSEL(deviceId: string, output: string, lower: char -> char, sha: string -> string) returns (out: seq<Event>)
    ensures var entries := Entries(Split(output, '\n'));
            && |out| == |entries|
            && (forall k :: 0 <= k < |out| ==> out[k] == EventOf(deviceId, entries[k], lower, sha))
            && forall k :: 0 <= k < |out| ==>
                 && out[k].deviceId == deviceId && out[k].message == entries[k] && out[k].dedupeKey == sha(entries[k])
                 && out[k].severity == EventSeverity(entries[k], lower)
  {
    out := [];
    var lines := Split(output, '\n');
    for i := 0 to |lines|
      invariant |out| == |Entries(lines[..i])|
      invariant forall k :: 0 <= k < |out| ==> out[k] == EventOf(deviceId, Entries(lines[..i])[k], lower, sha)
    {
      assert lines[..i + 1] == lines[..i] + [lines[i]];
      EntriesAppend(lines[..i], lines[i]);
      var line := Trim(lines[i]);
      if line == "" || HasPrefix(line, NO_ENTRIES) {
        continue;
      }
      var text := ToLower(line, lower);
      var sev := Info;
      if Contains(text, "critical") || Contains(text, "non-recoverable") || Contains(text, "failure") {
        sev := Critical;
      } else if Contains(text, "warning") || Contains(text, "non-critical") || Contains(text, "degraded") {
        sev := Warning;
      }
      out := out + [Event(deviceId, sev, line, sha(line))];
    }
    assert lines[..|lines|] == lines;
  }
}
