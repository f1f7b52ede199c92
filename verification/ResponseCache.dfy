/**
 * The response cache of the API (backend/internal/api/middleware/cache.go). Keys are SHA-256 (FIPS 180-4) of the URL,
 * given here as an injective function; instants are integer nanoseconds on a clock that never runs backwards.
 */
module ResponseCache {
  import opened Common

  datatype Entry = Entry(status: int, contentType: string, body: string, expiresAt: int)

  type Entries = map<string, Entry>

  /** One atomic section of the cache; a miss is completed when its handler has answered, possibly much later. */
  datatype Op =
    | Lookup(url: string, now: int)
    | Complete(url: string, status: int, contentType: string, body: string, ttl: int, now: int)
    | Cleanup(now: int)
    | Invalidate(url: string, now: int)

  function EntryOf(op: Op): Entry
    requires op.Complete?
  {
    Entry(op.status, op.contentType, op.body, op.now + op.ttl)
  }

  /** What a lookup answers: the entry under the key, unless it has expired. */
  function Answer(entries: Entries, key: string, now: int): Option<Entry> {
    if key !in entries || now > entries[key].expiresAt then None else Some(entries[key])
  }

  function Cleaned(entries: Entries, now: int): Entries {
    map key | key in entries && !(now > entries[key].expiresAt) :: entries[key]
  }

  function Next(entries: Entries, op: Op, hash: string -> string): Entries {
    match op
    case Lookup(_, _) => entries
    case Complete(url, status, _, _, _, _) => if status == 200 then entries[hash(url) := EntryOf(op)] else entries
    case Cleanup(now) => Cleaned(entries, now)
    case Invalidate(url, _) => entries - {hash(url)}
  }

  ghost function Run(ops: seq<Op>, hash: string -> string): Entries
    decreases |ops|
  {
    if ops == [] then map[] else Next(Run(ops[..|ops| - 1], hash), ops[|ops| - 1], hash)
  }

  // --- The history, which nothing expires ---

  /** The last response with status 200 completed for the URL since it was last invalidated. */
  ghost function LastStored(ops: seq<Op>, url: string): Option<Op>
    ensures LastStored(ops, url).Some? ==>
              var op := LastStored(ops, url).value;
              op in ops && op.Complete? && op.url == url && op.status == 200
    decreases |ops|
  {
    if ops == [] then None else
      var op := ops[|ops| - 1];
      if op.Complete? && op.url == url && op.status == 200 then Some(op)
      else if op.Invalidate? && op.url == url then None
      else LastStored(ops[..|ops| - 1], url)
  }

  ghost predicate Ordered(ops: seq<Op>) {
    forall i, j :: 0 <= i <= j < |ops| ==> ops[i].now <= ops[j].now
  }

  ghost predicate Injective(hash: string -> string) {
    forall u, v :: hash(u) == hash(v) ==> u == v
  }

  /** The map holds the last stored response, or has lost it to a cleanup after it expired. */
  ghost predicate Agrees(entries: Entries, last: Option<Op>, key: string, from: int)
    requires last.Some? ==> last.value.Complete?
  {
    match last
    case None => key !in entries
    case Some(op) => if key in entries then entries[key] == EntryOf(op) else from > op.now + op.ttl
  }

  lemma {:induction false} MapAgreesWithHistory(ops: seq<Op>, url: string, from: int, hash: string -> string)
    requires Ordered(ops) && Injective(hash) && (ops != [] ==> ops[|ops| - 1].now <= from)
    ensures Agrees(Run(ops, hash), LastStored(ops, url), hash(url), from)
    decreases |ops|
  {
    if ops == [] {
    } else {
      var before, op := ops[..|ops| - 1], ops[|ops| - 1];
      MapAgreesWithHistory(before, url, op.now, hash);
    }
  }

  /**
   * A lookup at `now` answers the most recently stored 200 response for that URL and no other, exactly while no more
   * than its time to live has passed since it was stored.
   */
  lemma HitIsLastStored(ops: seq<Op>, url: string, now: int, hash: string -> string)
    requires Ordered(ops + [Lookup(url, now)]) && Injective(hash)
    ensures var last := LastStored(ops, url);
            Answer(Run(ops, hash), hash(url), now)
              == if last.Some? && now - last.value.now <= last.value.ttl then Some(EntryOf(last.value)) else None
  {
    var all := ops + [Lookup(url, now)];
    assert forall i :: 0 <= i < |ops| ==> ops[i] == all[i];
    assert ops != [] ==> all[|ops| - 1].now <= all[|ops|].now;
    MapAgreesWithHistory(ops, url, now, hash);
  }

  /** A hit replays the stored response field by field: status 200, its content type, its body. */
  lemma HitReplaysResponse(ops: seq<Op>, url: string, now: int, hash: string -> string)
    requires Ordered(ops + [Lookup(url, now)]) && Injective(hash)
    requires Answer(Run(ops, hash), hash(url), now).Some?
    ensures LastStored(ops, url).Some?
    ensures var hit, stored := Answer(Run(ops, hash), hash(url), now).value, LastStored(ops, url).value;
            && hit.status == 200 && hit.contentType == stored.contentType && hit.body == stored.body
            && now <= hit.expiresAt == stored.now + stored.ttl
  {
    HitIsLastStored(ops, url, now, hash);
  }

  /** Nothing stored after it for the same URL, and no invalidation: that is what `LastStored` picks. */
  lemma {:induction false} LastStoredIsLast(ops: seq<Op>, url: string, i: nat)
    requires i < |ops| && ops[i].Complete? && ops[i].url == url && ops[i].status == 200
    requires forall j :: i < j < |ops| ==>
               !(ops[j].Complete? && ops[j].url == url && ops[j].status == 200) && !(ops[j].Invalidate? && ops[j].url == url)
    ensures LastStored(ops, url) == Some(ops[i])
    decreases |ops|
  {
    if i == |ops| - 1 {
    } else {
      LastStoredIsLast(ops[..|ops| - 1], url, i);
    }
  }

  function WithoutCleanups(ops: seq<Op>): seq<Op> {
    Filter(ops, (op: Op) => !op.Cleanup?)
  }

  lemma WithoutCleanupsAppend(ops: seq<Op>, op: Op)
    ensures WithoutCleanups(ops + [op]) == if op.Cleanup? then WithoutCleanups(ops) else WithoutCleanups(ops) + [op]
  {
    FilterAppend(ops, [op], (op: Op) => !op.Cleanup?);
    assert [op][1..] == [];
  }

  lemma LastStoredAppend(ops: seq<Op>, op: Op, url: string)
    ensures LastStored(ops + [op], url)
         == if op.Complete? && op.url == url && op.status == 200 then Some(op)
            else if op.Invalidate? && op.url == url then None
            else LastStored(ops, url)
  {
    assert (ops + [op])[..|ops + [op]| - 1] == ops;
  }

  lemma {:induction false} HistoryIgnoresCleanups(ops: seq<Op>, url: string)
    ensures LastStored(WithoutCleanups(ops), url) == LastStored(ops, url)
    decreases |ops|
  {
    if ops == [] {
    } else {
      var before, op := ops[..|ops| - 1], ops[|ops| - 1];
      HistoryIgnoresCleanups(before, url);
      assert ops == before + [op];
      WithoutCleanupsAppend(before, op);
      LastStoredAppend(WithoutCleanups(before), op, url);
    }
  }

  /** Removing every cleanup from a run changes no answer. */
  lemma CleanupIsInvisible(ops: seq<Op>, url: string, now: int, hash: string -> string)
    requires Ordered(ops + [Lookup(url, now)]) && Injective(hash)
    ensures Answer(Run(ops, hash), hash(url), now) == Answer(Run(WithoutCleanups(ops), hash), hash(url), now)
  {
    var all, rest := ops + [Lookup(url, now)], WithoutCleanups(ops);
    FilterOrdered(all, (op: Op) => !op.Cleanup?, (op: Op) => op.now);
    WithoutCleanupsAppend(ops, Lookup(url, now));
    assert Ordered(rest + [Lookup(url, now)]);
    HitIsLastStored(ops, url, now, hash);
    HitIsLastStored(rest, url, now, hash);
    HistoryIgnoresCleanups(ops, url);
  }

  /** Invalidate is documented to take a prefix; it removes the one URL it is given, and no longer one. */
  lemma InvalidateIsExact(ops: seq<Op>, url: string, other: string, now: int, hash: string -> string)
    requires Injective(hash)
    ensures Answer(Run(ops + [Invalidate(url, now)], hash), hash(other), now)
         == if other == url then None else Answer(Run(ops, hash), hash(other), now)
  {
    assert (ops + [Invalidate(url, now)])[..|ops|] == ops;
  }

  /** What the documentation of Invalidate promises: afterwards no URL with that prefix is answered from the cache. */
  ghost predicate PrefixGone(ops: seq<Op>, prefix: string, at: int, now: int, hash: string -> string) {
    forall url: string | prefix <= url :: Answer(Run(ops + [Invalidate(prefix, at)], hash), hash(url), now) == None
  }

  /** A response for the URL is on record and its time to live has not passed. */
  ghost predicate Live(ops: seq<Op>, url: string, now: int) {
    LastStored(ops, url).Some? && now - LastStored(ops, url).value.now <= LastStored(ops, url).value.ttl
  }

  lemma AnswerAfterInvalidate(ops: seq<Op>, prefix: string, at: int, url: string, now: int, hash: string -> string)
    requires Ordered(ops + [Invalidate(prefix, at)] + [Lookup(url, now)]) && Injective(hash)
    ensures Answer(Run(ops + [Invalidate(prefix, at)], hash), hash(url), now) != None <==> url != prefix && Live(ops, url, now)
  {
    HitIsLastStored(ops + [Invalidate(prefix, at)], url, now, hash);
    LastStoredAppend(ops, Invalidate(prefix, at), url);
  }

  lemma OrderedForAnyUrl(ops: seq<Op>, a: string, b: string, now: int)
    requires Ordered(ops + [Lookup(a, now)])
    ensures Ordered(ops + [Lookup(b, now)])
  {
    var x, y := ops + [Lookup(a, now)], ops + [Lookup(b, now)];
    assert forall i :: 0 <= i < |x| ==> x[i].now == y[i].now;
  }

  /** The documented contract is met exactly when no longer URL with that prefix has a live response. */
  lemma PrefixGoneIff(ops: seq<Op>, prefix: string, at: int, now: int, hash: string -> string)
    requires Ordered(ops + [Invalidate(prefix, at)] + [Lookup(prefix, now)]) && Injective(hash)
    ensures PrefixGone(ops, prefix, at, now, hash) <==> forall url: string | prefix < url :: !Live(ops, url, now)
  {
    forall url: string
      ensures Answer(Run(ops + [Invalidate(prefix, at)], hash), hash(url), now) != None <==> url != prefix && Live(ops, url, now)
    {
      OrderedForAnyUrl(ops + [Invalidate(prefix, at)], prefix, url, now);
      AnswerAfterInvalidate(ops, prefix, at, url, now, hash);
    }
    if url: string :| prefix < url && Live(ops, url, now) {
      assert prefix <= url && url != prefix;
      assert Answer(Run(ops + [Invalidate(prefix, at)], hash), hash(url), now) != None;
    }
  }

  /** Stored under "/a/b", invalidated as "/a", and still answered. */
  lemma PrefixSurvives(hash: string -> string)
    requires Injective(hash)
    ensures var stored := Complete("/a/b", 200, "application/json", "{}", 30, 0);
            Answer(Run([stored, Invalidate("/a", 1)], hash), hash("/a/b"), 2) == Some(EntryOf(stored))
  {
    var stored := Complete("/a/b", 200, "application/json", "{}", 30, 0);
    var ops := [stored, Invalidate("/a", 1)];
    HitIsLastStored(ops, "/a/b", 2, hash);
    assert |"/a/b"| != |"/a"|;
    LastStoredIsLast(ops, "/a/b", 0);
  }

  // --- The cache itself ---

  class Cache {
    var entries: Entries
    const hash: string -> string

    constructor (hash: string -> string)
      ensures entries == map[] && this.hash == hash
    {
      entries, this.hash := map[], hash;
    }

    method Get(key: string, now: int) returns (entry: Option<Entry>)
      ensures entry == Answer(entries, key, now)
    {
      if key !in entries || now > entries[key].expiresAt {
        return None;
      }
      return Some(entries[key]);
    }

    method Set(key: string, entry: Entry)
      modifies this`entries
      ensures entries == old(entries)[key := entry]
    {
      entries := entries[key := entry];
    }

    method CleanUp(now: int)
      modifies this`entries
      ensures entries == Cleaned(old(entries), now)
      ensures forall key :: key in entries <==> key in old(entries) && now <= old(entries)[key].expiresAt
      ensures forall key :: key in entries ==> entries[key] == old(entries)[key]
    {
      var todo := entries.Keys;
      while todo != {}
        invariant todo <= old(entries).Keys
        invariant forall key :: key in todo ==> key in entries && entries[key] == old(entries)[key]
        invariant forall key :: key !in todo ==> (key in entries <==> key in Cleaned(old(entries), now))
        invariant forall key :: key in entries ==> key in old(entries) && entries[key] == old(entries)[key]
        decreases todo
      {
        var key :| key in todo;
        if now > entries[key].expiresAt {
          entries := entries - {key};
        }
        todo := todo - {key};
      }
    }

    method Remove(url: string, ghost now: int)
      modifies this`entries
      ensures entries == Next(old(entries), Invalidate(url, now), hash)
    {
      entries := entries - {hash(url)};
    }

    /**
     * CacheMiddleware for one request. `start` and `end` are the clock before the lookup and after the handler, `response`
     * what the handler would answer. Requests other than GET pass through.
     */
    method Serve(verb: string, url: string, ttl: int, start: int, end: int, response: Entry) returns (hit: bool, served: Entry)
      modifies this`entries
      ensures verb != "GET" ==> !hit && entries == old(entries)
      ensures hit ==> Answer(old(entries), hash(url), start) == Some(served) && entries == old(entries)
      ensures verb == "GET" && !hit ==>
                && Answer(old(entries), hash(url), start) == None && served == response
                && (response.status == 200 && ttl >= 0 ==>
                    Answer(entries, hash(url), end) == Some(Entry(200, response.contentType, response.body, end + ttl)))
                && (response.status != 200 ==> entries == old(entries))
                && entries == Next(old(entries), Complete(url, response.status, response.contentType, response.body, ttl, end), hash)
    {
      hit, served := false, response;
      if verb != "GET" {
        return;
      }
      var key := hash(url);
      var entry := Get(key, start);
      if entry.Some? {
        return true, entry.value;
      }
      if response.status == 200 {
        Set(key, Entry(response.status, response.contentType, response.body, end + ttl));
      }
    }
  }
}
