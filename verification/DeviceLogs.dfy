/**
 * The merged device log (GetDeviceLogs, backend/internal/api/handlers/device_handler.go): merge, filter in place on the
 * shared array, sort, cut. Timestamps are texts and compared as texts.
 */
module DeviceLogs {
  import opened Common

  datatype LogEntry = LogEntry(id: string, source: string, severity: string, message: string, timestamp: string)

  /** An entry of the event log or of the lifecycle log, as stored. */
  datatype StoredEntry = StoredEntry(id: string, severity: string, message: string, created: string)

  // --- Text order ---

  predicate Greater(a: string, b: string) {
    a != "" && (b == "" || a[0] > b[0] || (a[0] == b[0] && Greater(a[1..], b[1..])))
  }

  ghost predicate DiffersAt(a: string, b: string, k: nat) {
    k <= |b| && k < |a| && a[..k] == b[..k] && (k == |b| || a[k] > b[k])
  }

  /** Text order, from outside: at the first place where they differ `a` has the larger character, or `b` has ended. */
  lemma GreaterIff(a: string, b: string)
    ensures Greater(a, b) <==>
              exists k: nat :: k <= |b| && k < |a| && a[..k] == b[..k] && (k == |b| || a[k] > b[k])
  {
    GreaterDiffers(a, b);
    if k: nat :| k <= |b| && k < |a| && a[..k] == b[..k] && (k == |b| || a[k] > b[k]) {
      assert DiffersAt(a, b, k);
    }
  }

  lemma {:induction false} GreaterDiffers(a: string, b: string)
    ensures Greater(a, b) <==> exists k: nat :: DiffersAt(a, b, k)
  {
    if a == "" {
    } else if b == "" {
      assert DiffersAt(a, b, 0);
    } else {
      GreaterDiffers(a[1..], b[1..]);
      GreaterTail(a, b);
    }
  }

  lemma GreaterTail(a: string, b: string)
    requires a != "" && b != ""
    ensures (exists k: nat :: DiffersAt(a, b, k)) <==> a[0] > b[0] || (a[0] == b[0] && exists k: nat :: DiffersAt(a[1..], b[1..], k))
  {
    if k: nat :| DiffersAt(a, b, k) {
      if k > 0 {
        assert a[..k][0] == b[..k][0];
        assert a[1..][..k - 1] == a[..k][1..] && b[1..][..k - 1] == b[..k][1..];
        assert DiffersAt(a[1..], b[1..], k - 1);
      }
    }
    if a[0] > b[0] {
      assert DiffersAt(a, b, 0);
    }
    if k: nat :| a[0] == b[0] && DiffersAt(a[1..], b[1..], k) {
      assert a[..k + 1] == [a[0]] + a[1..][..k] && b[..k + 1] == [b[0]] + b[1..][..k];
      assert DiffersAt(a, b, k + 1);
    }
  }

  lemma {:induction false} GreaterTotal(a: string, b: string)
    ensures !Greater(a, b) && !Greater(b, a) ==> a == b
    ensures !(Greater(a, b) && Greater(b, a))
  {
    if a == "" || b == "" {
    } else {
      GreaterTotal(a[1..], b[1..]);
      assert a == [a[0]] + a[1..] && b == [b[0]] + b[1..];
    }
  }

  lemma {:induction false} GreaterTransitive(a: string, b: string, c: string)
    requires Greater(a, b) && Greater(b, c)
    ensures Greater(a, c)
  {
    if c != "" && a[0] == b[0] == c[0] { GreaterTransitive(a[1..], b[1..], c[1..]); }
  }

  /** `x` is at least as recent as `y`. */
  predicate NoOlder(x: LogEntry, y: LogEntry) {
    !Greater(y.timestamp, x.timestamp)
  }

  lemma NoOlderTransitive(x: LogEntry, y: LogEntry, z: LogEntry)
    requires NoOlder(x, y) && NoOlder(y, z)
    ensures NoOlder(x, z)
  {
    if Greater(z.timestamp, x.timestamp) {
      GreaterTotal(y.timestamp, x.timestamp);
      if Greater(x.timestamp, y.timestamp) { GreaterTransitive(z.timestamp, x.timestamp, y.timestamp); }
    }
  }

  // --- Sorting ---

  ghost predicate Descending(s: seq<LogEntry>) {
    forall i, j :: 0 <= i < j < |s| ==> NoOlder(s[i], s[j])
  }

  function Insert(x: LogEntry, s: seq<LogEntry>): seq<LogEntry> {
    if s == [] || NoOlder(x, s[0]) then [x] + s else [s[0]] + Insert(x, s[1..])
  }

  function Sorted(s: seq<LogEntry>): seq<LogEntry> {
    if s == [] then [] else Insert(s[0], Sorted(s[1..]))
  }

  lemma DescendingCons(x: LogEntry, s: seq<LogEntry>)
    requires Descending(s) && (s != [] ==> NoOlder(x, s[0]))
    ensures Descending([x] + s)
  {
    forall j | 1 <= j < |s| ensures NoOlder(x, s[j]) { NoOlderTransitive(x, s[0], s[j]); }
  }

  lemma {:induction false} InsertSorts(x: LogEntry, s: seq<LogEntry>)
    requires Descending(s)
    ensures Descending(Insert(x, s)) && multiset(Insert(x, s)) == multiset(s) + multiset{x}
  {
    if s == [] || NoOlder(x, s[0]) {
      DescendingCons(x, s);
    } else {
      InsertSorts(x, s[1..]);
      GreaterTotal(x.timestamp, s[0].timestamp);
      assert s == [s[0]] + s[1..];
      assert Insert(x, s[1..])[0] == x || Insert(x, s[1..])[0] == s[1];
      DescendingCons(s[0], Insert(x, s[1..]));
    }
  }

  lemma {:induction false} SortedSorts(s: seq<LogEntry>)
    ensures Descending(Sorted(s)) && multiset(Sorted(s)) == multiset(s)
  {
    if s == [] {
    } else {
      SortedSorts(s[1..]);
      InsertSorts(s[0], Sorted(s[1..]));
      assert s == [s[0]] + s[1..];
    }
  }

  /** Stands for the library sort: some permutation, most recent first. The caller may use no more than that. */
  method SortSlice(a: array<LogEntry>, n: nat)
    requires n <= a.Length
    modifies a
    ensures multiset(a[..n]) == multiset(old(a[..n])) && Descending(a[..n])
  {
    var s := Sorted(a[..n]);
    SortedSorts(a[..n]);
    assert |s| == |multiset(s)| == |multiset(a[..n])| == n;
    forall i | 0 <= i < n {
      a[i] := s[i];
    }
    assert a[..n] == s;
  }

  // --- The handler ---

  predicate Wanted(e: LogEntry, severity: string, equalFold: (string, string) -> bool) {
    severity == "all" || equalFold(e.severity, severity)
  }

  function FromStored(e: StoredEntry, source: string): LogEntry {
    LogEntry(e.id, source, e.severity, e.message, e.created)
  }

  function Merged(sel: seq<StoredEntry>, lifecycle: seq<StoredEntry>): seq<LogEntry> {
    seq(|sel|, i requires 0 <= i < |sel| => FromStored(sel[i], "sel"))
      + seq(|lifecycle|, i requires 0 <= i < |lifecycle| => FromStored(lifecycle[i], "lifecycle"))
  }

  function Matching(all: seq<LogEntry>, severity: string, equalFold: (string, string) -> bool): seq<LogEntry> {
    Filter(all, e => Wanted(e, severity, equalFold))
  }

  /** Every stored entry of either log is merged once, the event log first, with its source named and its fields kept. */
  lemma MergedEntries(sel: seq<StoredEntry>, lifecycle: seq<StoredEntry>, i: nat)
    ensures |Merged(sel, lifecycle)| == |sel| + |lifecycle|
    ensures i < |sel| + |lifecycle| ==>
              var e, from := Merged(sel, lifecycle)[i], if i < |sel| then sel[i] else lifecycle[i - |sel|];
              && e.source == (if i < |sel| then "sel" else "lifecycle")
              && e.id == from.id && e.severity == from.severity && e.message == from.message && e.timestamp == from.created
  {}

  /** An entry is among the matches, as often as in the merged log, exactly for "all" or an equal severity, case aside. */
  lemma MatchingIff(all: seq<LogEntry>, severity: string, equalFold: (string, string) -> bool, e: LogEntry)
    ensures multiset(Matching(all, severity, equalFold))[e]
         == if severity == "all" || equalFold(e.severity, severity) then multiset(all)[e] else 0
  {
    FilterMembers(all, x => Wanted(x, severity, equalFold), e);
  }

  /** `full` is all of `matches`, most recent first. */
  ghost predicate IsOrdering(full: seq<LogEntry>, matches: seq<LogEntry>) {
    multiset(full) == multiset(matches) && Descending(full)
  }

  /** `logs` is the first `limit` entries of `matches`, most recent first. */
  ghost predicate IsLatest(logs: seq<LogEntry>, matches: seq<LogEntry>, limit: nat) {
    exists full :: IsOrdering(full, matches) && logs == full[..Min(limit, |full|)]
  }

  /**
   * The filter that writes through logs[:0] over the array it reads from: the write position never passes the read
   * position, so no entry is overwritten unread.
   */
  method FilterInPlace(a: array<LogEntry>, severity: string, equalFold: (string, string) -> bool) returns (k: nat)
    modifies a
    ensures k <= a.Length && a[..k] == Matching(old(a[..]), severity, equalFold)
  {
    k := 0;
    ghost var was := a[..];
    for i := 0 to a.Length
      invariant k <= i && a[..k] == Matching(was[..i], severity, equalFold)
      invariant forall j :: i <= j < a.Length ==> a[j] == was[j]
    {
      var l := a[i];
      assert was[..i + 1] == was[..i] + [l];
      FilterAppend(was[..i], [l], e => Wanted(e, severity, equalFold));
      assert [l][1..] == [];
      if severity == "all" || equalFold(l.severity, severity) {
        a[k] := l;
        k := k + 1;
      }
    }
    assert was[..a.Length] == was;
  }

  /** `inventory` is the stored row, if there is one; `limit` what could be read from the query parameter. */
  method GetDeviceLogs(inventory: Option<(seq<StoredEntry>, seq<StoredEntry>)>, severity: string, limit: Option<int>,
                       equalFold: (string, string) -> bool)
    returns (logs: seq<LogEntry>, total: nat)
    ensures inventory.None? ==> logs == [] && total == 0
    ensures inventory.Some? ==>
              var matches := Matching(Merged(inventory.value.0, inventory.value.1), severity, equalFold);
              var cut: nat := if limit.Some? && limit.value >= 1 then limit.value else 50;
              total == |matches| && IsLatest(logs, matches, cut)
  {
    var cut := if limit.Some? then limit.value else 50;
    if cut < 1 {
      cut := 50;
    }
    if inventory.None? {
      return [], 0;
    }
    logs, total := Select(Merged(inventory.value.0, inventory.value.1), severity, cut, equalFold);
  }

  /** The part of the handler after the merge, on the one array that filter, sort and cut share. */
  method Select(all: seq<LogEntry>, severity: string, limit: nat, equalFold: (string, string) -> bool)
    returns (logs: seq<LogEntry>, total: nat)
    ensures total == |Matching(all, severity, equalFold)|
    ensures IsLatest(logs, Matching(all, severity, equalFold), limit)
  {
    var a := new LogEntry[|all|](i requires 0 <= i < |all| => all[i]);
    assert a[..] == all;
    total := a.Length;
    if severity != "all" {
      total := FilterInPlace(a, severity, equalFold);
    } else {
      EverythingMatches(all, equalFold);
      assert a[..total] == all;
    }
    logs := SortAndCut(a, total, limit);
  }

  /** Sort the first `n` entries, then reslice them to at most `limit`. */
  method SortAndCut(a: array<LogEntry>, n: nat, limit: nat) returns (logs: seq<LogEntry>)
    requires n <= a.Length
    modifies a
    ensures IsLatest(logs, old(a[..n]), limit)
  {
    SortSlice(a, n);
    ghost var full := a[..n];
    var end := n;
    if limit < n {
      end := limit;
    }
    logs := a[..end];
    assert logs == full[..Min(limit, |full|)];
  }

  lemma {:induction false} EverythingMatches(all: seq<LogEntry>, equalFold: (string, string) -> bool)
    ensures Matching(all, "all", equalFold) == all
  {
    if all == [] {
    } else {
      EverythingMatches(all[1..], equalFold);
      assert [all[0]] + all[1..] == all;
    }
  }

  // --- What the answer means ---

  lemma KeptAreMatches(full: seq<LogEntry>, matches: seq<LogEntry>, k: nat)
    requires IsOrdering(full, matches) && k <= |full|
    ensures |full| == |matches| && multiset(full[..k]) <= multiset(matches)
    ensures multiset(matches) - multiset(full[..k]) == multiset(full[k..])
  {
    assert |full| == |multiset(full)| == |multiset(matches)| == |matches|;
    assert full == full[..k] + full[k..];
  }

  lemma FrontIsNoOlder(full: seq<LogEntry>, k: nat, x: LogEntry, y: LogEntry)
    requires Descending(full) && k <= |full| && x in full[..k] && y in full[k..]
    ensures NoOlder(x, y)
  {
    var i :| 0 <= i < k && full[i] == x;
    var j :| k <= j < |full| && full[j] == y;
  }

  /** Kept and left-out entries make up the matches, and none left out is more recent than any kept. */
  lemma KeptAreLatest(logs: seq<LogEntry>, matches: seq<LogEntry>, limit: nat)
    requires IsLatest(logs, matches, limit)
    ensures |logs| == Min(limit, |matches|) && Descending(logs) && multiset(logs) <= multiset(matches)
    ensures forall x, y :: x in logs && y in multiset(matches) - multiset(logs) ==> NoOlder(x, y)
  {
    var full: seq<LogEntry> :| IsOrdering(full, matches) && logs == full[..Min(limit, |full|)];
    KeptAreMatches(full, matches, |logs|);
    forall x, y | x in logs && y in multiset(matches) - multiset(logs) ensures NoOlder(x, y) {
      FrontIsNoOlder(full, |logs|, x, y);
    }
  }

  predicate SinceTime(e: LogEntry, t: string) {
    !Greater(t, e.timestamp)
  }

  function Since(s: seq<LogEntry>, t: string): seq<LogEntry> {
    Filter(s, e => SinceTime(e, t))
  }

  lemma SinceOlder(x: LogEntry, y: LogEntry, t: string)
    requires NoOlder(x, y) && SinceTime(y, t)
    ensures SinceTime(x, t)
  {
    NoOlderTransitive(x, y, LogEntry("", "", "", "", t));
  }

  /** In a descending list the entry at `i` is not older than `t` exactly when more than `i` entries are not. */
  lemma {:induction false} RankOf(s: seq<LogEntry>, i: nat, t: string)
    requires Descending(s) && i < |s|
    ensures SinceTime(s[i], t) <==> |Since(s, t)| > i
  {
    if SinceTime(s[0], t) {
      if i > 0 {
        RankOf(s[1..], i - 1, t);
      }
    } else {
      if SinceTime(s[i], t) { SinceOlder(s[0], s[i], t); }
      NoneSince(s, t);
    }
  }

  lemma {:induction false} NoneSince(s: seq<LogEntry>, t: string)
    requires Descending(s) && (s != [] ==> !SinceTime(s[0], t))
    ensures Since(s, t) == []
  {
    if s == [] {
    } else {
      if |s| > 1 && SinceTime(s[1], t) { SinceOlder(s[0], s[1], t); }
      NoneSince(s[1..], t);
    }
  }

  /** However the library breaks ties, the timestamps shown are the same. */
  lemma TimestampsDetermined(logs: seq<LogEntry>, logs': seq<LogEntry>, matches: seq<LogEntry>, limit: nat)
    requires IsLatest(logs, matches, limit) && IsLatest(logs', matches, limit)
    ensures |logs| == |logs'| && forall i :: 0 <= i < |logs| ==> logs[i].timestamp == logs'[i].timestamp
  {
    var full: seq<LogEntry> :| IsOrdering(full, matches) && logs == full[..Min(limit, |full|)];
    var full': seq<LogEntry> :| IsOrdering(full', matches) && logs' == full'[..Min(limit, |full'|)];
    KeptAreMatches(full, matches, 0);
    KeptAreMatches(full', matches, 0);
    forall i | 0 <= i < |logs| ensures logs[i].timestamp == logs'[i].timestamp {
      SameRank(full, full', i);
      SameRank(full', full, i);
      GreaterTotal(full[i].timestamp, full'[i].timestamp);
    }
  }

  lemma SameRank(a: seq<LogEntry>, b: seq<LogEntry>, i: nat)
    requires multiset(a) == multiset(b) && Descending(a) && Descending(b) && i < |a| && i < |b|
    ensures !Greater(a[i].timestamp, b[i].timestamp)
  {
    var t := a[i].timestamp;
    GreaterTotal(t, t);
    RankOf(a, i, t);
    RankOf(b, i, t);
    FilterOfPermutation(a, b, e => SinceTime(e, t));
  }

  // --- Text order and time ---

  /** No entry left out is later in time than one that is kept. */
  ghost predicate LatestInTime(logs: seq<LogEntry>, matches: seq<LogEntry>, instant: string -> int) {
    forall x, y :: x in logs && y in multiset(matches) - multiset(logs) ==> instant(x.timestamp) >= instant(y.timestamp)
  }

  /** Of two matches the one that is earlier in time is also smaller as text. */
  ghost predicate TextFollowsTime(matches: seq<LogEntry>, instant: string -> int) {
    forall x, y :: x in matches && y in matches && instant(x.timestamp) < instant(y.timestamp) ==> Greater(y.timestamp, x.timestamp)
  }

  /** An entry that is earlier in time but not smaller as text can be kept while the later one is left out. */
  lemma LaterIsLeftOut(matches: seq<LogEntry>, x: LogEntry, y: LogEntry, instant: string -> int) returns (logs: seq<LogEntry>, limit: nat)
    requires x in matches && y in matches && instant(x.timestamp) < instant(y.timestamp) && !Greater(y.timestamp, x.timestamp)
    ensures IsLatest(logs, matches, limit) && !LatestInTime(logs, matches, instant)
  {
    var full := Sorted(matches);
    SortedSorts(matches);
    limit := PlacesInOrder(full, matches, x, y);
    logs := full[..limit];
    KeptAreMatches(full, matches, limit);
    assert IsOrdering(full, matches) && logs == full[..Min(limit, |full|)];
    assert y in multiset(matches) - multiset(logs);
  }

  /** Where `y` stands in a descending order, after `x`. */
  lemma PlacesInOrder(full: seq<LogEntry>, matches: seq<LogEntry>, x: LogEntry, y: LogEntry) returns (j: nat)
    requires IsOrdering(full, matches) && x in matches && y in matches
    requires x.timestamp != y.timestamp && !Greater(y.timestamp, x.timestamp)
    ensures j < |full| && x in full[..j] && y in full[j..]
  {
    assert x in multiset(full) && y in multiset(full);
    var i :| 0 <= i < |full| && full[i] == x;
    j :| 0 <= j < |full| && full[j] == y;
    GreaterTotal(x.timestamp, y.timestamp);
    assert i < j;
    assert full[..j][i] == x && full[j..][0] == y;
  }

  /** Whatever the limit and the ties, the kept entries are the latest in time exactly when text order follows time. */
  lemma LatestInTimeIff(matches: seq<LogEntry>, instant: string -> int)
    ensures (forall logs, limit: nat :: IsLatest(logs, matches, limit) ==> LatestInTime(logs, matches, instant))
              <==> TextFollowsTime(matches, instant)
  {
    if TextFollowsTime(matches, instant) {
      forall logs, limit: nat | IsLatest(logs, matches, limit) ensures LatestInTime(logs, matches, instant) {
        KeptAreLatest(logs, matches, limit);
        forall x: LogEntry, y: LogEntry | x in logs && y in multiset(matches) - multiset(logs)
          ensures instant(x.timestamp) >= instant(y.timestamp)
        {
          assert x in multiset(matches) && y in multiset(matches);
        }
      }
    } else {
      var x, y :| x in matches && y in matches && instant(x.timestamp) < instant(y.timestamp) && !Greater(y.timestamp, x.timestamp);
      var logs, limit := LaterIsLeftOut(matches, x, y, instant);
    }
  }
}
