/**
 * The pages of the device list (DeviceRepository.List, backend/internal/db/device_repository.go): ORDER BY created_at DESC
 * with LIMIT and OFFSET. Rows that share created_at may come back in any order, and each page is a query of its own.
 */
module DevicePages {
  import opened Common
  import opened SqlText
  import opened DeviceList

  function CreatedAt(row: Row): int {
    if Get(row, "created_at").Time? then Get(row, "created_at").t else 0
  }

  ghost predicate Descending(o: seq<Row>) {
    forall i, j :: 0 <= i < j < |o| ==> CreatedAt(o[i]) >= CreatedAt(o[j])
  }

  /** `o` is one of the orders in which the database may return `matches`. */
  ghost predicate IsResult(o: seq<Row>, matches: seq<Row>) {
    multiset(o) == multiset(matches) && Descending(o)
  }

  /** Where page `k` ends in a result of `n` rows. */
  function Bound(k: nat, size: nat, n: nat): (b: nat)
    ensures b <= n
  {
    Min(k * size, n)
  }

  function Page(o: seq<Row>, limit: nat, offset: nat): seq<Row> {
    if offset >= |o| then [] else o[offset..Min(offset + limit, |o|)]
  }

  /** Pages 1 to k, each cut from the order its own query happened to see. */
  ghost function AllPages(orders: nat -> seq<Row>, size: nat, k: nat): seq<Row> {
    if k == 0 then [] else AllPages(orders, size, k - 1) + Page(orders(k), size, (k - 1) * size)
  }

  /** No two rows on either side of the cut share created_at. */
  ghost predicate CleanCut(o: seq<Row>, b: nat) {
    0 < b < |o| ==> CreatedAt(o[b - 1]) > CreatedAt(o[b])
  }

  ghost predicate NoTieAcrossPages(o: seq<Row>, size: nat) {
    forall k: nat :: CleanCut(o, Bound(k, size, |o|))
  }

  // --- Pages are slices between bounds ---

  function Slice(o: seq<Row>, a: nat, b: nat): seq<Row> {
    if a <= b <= |o| then o[a..b] else []
  }

  ghost function AllSlices(orders: nat -> seq<Row>, bound: nat -> nat, k: nat): seq<Row> {
    if k == 0 then [] else AllSlices(orders, bound, k - 1) + Slice(orders(k), bound(k - 1), bound(k))
  }

  /** Bounds of consecutive slices of a sequence of length `n`. */
  ghost predicate Bounds(bound: nat -> nat, n: nat) {
    && bound(0) == 0
    && (forall k: nat :: bound(k) <= n)
    && (forall j: nat, k: nat :: j <= k ==> bound(j) <= bound(k))
  }

  lemma PageIsSlice(o: seq<Row>, size: nat, k: nat)
    requires 0 < k
    ensures Page(o, size, (k - 1) * size) == Slice(o, Bound(k - 1, size, |o|), Bound(k, size, |o|))
  {
    assert k * size == (k - 1) * size + size;
  }

  lemma PageBounds(size: nat, n: nat)
    ensures Bounds(p => Bound(p, size, n), n)
  {
    forall j: nat, k: nat | j <= k ensures Bound(j, size, n) <= Bound(k, size, n) {
      assert j * size <= k * size;
    }
  }

  lemma {:induction false} PagesAreSlices(orders: nat -> seq<Row>, size: nat, n: nat, k: nat)
    requires forall p :: |orders(p)| == n
    ensures AllPages(orders, size, k) == AllSlices(orders, p => Bound(p, size, n), k)
  {
    if k == 0 {
    } else {
      PagesAreSlices(orders, size, n, k - 1);
      PageIsSlice(orders(k), size, k);
    }
  }

  // --- A clean cut fixes what lies before it ---

  lemma {:induction false} DescendingFilter(o: seq<Row>, least: int, b: nat)
    requires Descending(o) && b <= |o|
    requires forall i :: 0 <= i < b ==> CreatedAt(o[i]) >= least
    requires forall i :: b <= i < |o| ==> CreatedAt(o[i]) < least
    ensures Filter(o, r => CreatedAt(r) >= least) == o[..b]
    decreases |o|
  {
    if o == [] {
    } else {
      DescendingFilter(o[1..], least, if b == 0 then 0 else b - 1);
      if b > 0 { assert o[..b] == [o[0]] + o[1..][..b - 1]; }
    }
  }

  /** The number of leading rows not older than `least`. */
  ghost function Leading(o: seq<Row>, least: int): (b: nat)
    requires Descending(o)
    ensures b <= |o|
    ensures forall i :: 0 <= i < b ==> CreatedAt(o[i]) >= least
    ensures forall i :: b <= i < |o| ==> CreatedAt(o[i]) < least
  {
    if o == [] || CreatedAt(o[0]) < least then 0 else 1 + Leading(o[1..], least)
  }

  lemma CutIsDetermined(o: seq<Row>, o': seq<Row>, b: nat)
    requires multiset(o) == multiset(o') && Descending(o) && Descending(o') && b <= |o| && CleanCut(o, b)
    ensures |o'| == |o| && multiset(o'[..b]) == multiset(o[..b])
  {
    assert |o| == |multiset(o)| == |multiset(o')| == |o'|;
    if 0 < b < |o| {
      var least := CreatedAt(o[b - 1]);
      var b' := Leading(o', least);
      DescendingFilter(o, least, b);
      DescendingFilter(o', least, b');
      FilterOfPermutation(o, o', r => CreatedAt(r) >= least);
      assert multiset(o[..b]) == multiset(o'[..b']);
      assert b == |multiset(o[..b])| == |multiset(o'[..b'])| == b';
    } else if b == |o| {
      assert o[..b] == o && o'[..b] == o';
    } else {
      assert o[..b] == [] && o'[..b] == [];
    }
  }

  lemma {:induction false} SlicesFollowOneOrder(orders: nat -> seq<Row>, o: seq<Row>, bound: nat -> nat, k: nat)
    requires Descending(o) && Bounds(bound, |o|) && forall p: nat :: CleanCut(o, bound(p))
    requires forall p :: IsResult(orders(p), o)
    ensures multiset(AllSlices(orders, bound, k)) == multiset(o[..bound(k)])
  {
    if k == 0 {
      assert o[..bound(0)] == [];
    } else {
      SlicesFollowOneOrder(orders, o, bound, k - 1);
      SliceIsDetermined(o, orders(k), bound(k - 1), bound(k));
    }
  }

  lemma SliceIsDetermined(o: seq<Row>, o': seq<Row>, from: nat, to: nat)
    requires Descending(o) && IsResult(o', o) && from <= to <= |o| && CleanCut(o, from) && CleanCut(o, to)
    ensures multiset(o[..from]) + multiset(Slice(o', from, to)) == multiset(o[..to])
  {
    CutIsDetermined(o, o', from);
    CutIsDetermined(o, o', to);
    assert o'[..to] == o'[..from] + o'[from..to];
  }

  lemma PagesFollowOneOrder(orders: nat -> seq<Row>, o: seq<Row>, size: nat, k: nat)
    requires Descending(o) && NoTieAcrossPages(o, size)
    requires forall p :: IsResult(orders(p), o)
    ensures multiset(AllPages(orders, size, k)) == multiset(o[..Bound(k, size, |o|)])
  {
    var bound := (p: nat) => Bound(p, size, |o|);
    PageBounds(size, |o|);
    forall p ensures |orders(p)| == |o| { SameLength(orders(p), o); }
    PagesAreSlices(orders, size, |o|, k);
    assert forall p: nat :: bound(p) == Bound(p, size, |o|);
    SlicesFollowOneOrder(orders, o, bound, k);
  }

  lemma SameLength(a: seq<Row>, b: seq<Row>)
    requires multiset(a) == multiset(b)
    ensures |a| == |b|
  {
    assert |a| == |multiset(a)| && |b| == |multiset(b)|;
  }

  // --- A tie across a cut can lose a row ---

  lemma JoinSlices(before: seq<Row>, o: seq<Row>, a: nat, b: nat, c: nat)
    requires a <= b <= c <= |o|
    ensures before + o[a..b] + o[b..c] == before + o[a..c]
  {
    assert o[a..b] + o[b..c] == o[a..c];
  }

  lemma {:induction false} SlicesOfOneOrder(orders: nat -> seq<Row>, o: seq<Row>, bound: nat -> nat, j: nat, k: nat)
    requires j <= k && Bounds(bound, |o|) && forall p :: j < p <= k ==> orders(p) == o
    ensures AllSlices(orders, bound, k) == AllSlices(orders, bound, j) + o[bound(j)..bound(k)]
    decreases k
  {
    if j == k {
    } else {
      SlicesOfOneOrder(orders, o, bound, j, k - 1);
      assert bound(j) <= bound(k - 1) <= bound(k) <= |o|;
      JoinSlices(AllSlices(orders, bound, j), o, bound(j), bound(k - 1), bound(k));
    }
  }

  lemma DistinctCount(o: seq<Row>, i: nat)
    requires Distinct(o) && i < |o|
    ensures multiset(o)[o[i]] == 1
  {
    assert o == o[..i] + [o[i]] + o[i + 1..];
  }

  lemma Swapped(o: seq<Row>, b: nat) returns (o': seq<Row>)
    requires Descending(o) && 0 < b < |o| && CreatedAt(o[b - 1]) == CreatedAt(o[b])
    ensures |o'| == |o| && IsResult(o', o) && o'[b] == o[b - 1]
  {
    o' := o[b - 1 := o[b]][b := o[b - 1]];
  }

  /** Rows before a cut from one order and after it from another: a row on both sides is shown twice. */
  lemma RepeatedRow(o: seq<Row>, o': seq<Row>, b: nat)
    requires Distinct(o) && 0 < b < |o| && |o'| == |o| && o'[b] == o[b - 1]
    ensures multiset(o[..b] + o'[b..]) != multiset(o)
  {
    var r := o[b - 1];
    assert o[..b] + o'[b..] == o[..b - 1] + [r] + [r] + o'[b + 1..];
    assert multiset(o[..b] + o'[b..])[r] >= 2;
    DistinctCount(o, b - 1);
  }

  /** Slices up to `j` from one order and the others from another. */
  lemma SlicesOfTwoOrders(orders: nat -> seq<Row>, o: seq<Row>, o': seq<Row>, bound: nat -> nat, j: nat, k: nat)
    requires j <= k && Bounds(bound, |o|) && |o'| == |o| && bound(k) == |o|
    requires forall p: nat :: orders(p) == if p <= j then o else o'
    ensures AllSlices(orders, bound, k) == o[..bound(j)] + o'[bound(j)..]
  {
    assert AllSlices(orders, bound, j) == o[..bound(j)] by {
      SlicesOfOneOrder(orders, o, bound, 0, j);
    }
    SlicesOfOneOrder(orders, o', bound, j, k);
  }

  /** Two rows that tie across a page boundary: an order in which one is shown on both pages, and the other on none. */
  lemma TieRepeatsARow(o: seq<Row>, size: nat, j: nat, k: nat) returns (orders: nat -> seq<Row>)
    requires Descending(o) && Distinct(o) && !CleanCut(o, Bound(j, size, |o|)) && Bound(k, size, |o|) == |o| && j <= k
    ensures forall p :: IsResult(orders(p), o)
    ensures multiset(AllPages(orders, size, k)) != multiset(o)
  {
    var b := Bound(j, size, |o|);
    var o' := Swapped(o, b);
    orders := p => if p <= j then o else o';
    PageBounds(size, |o|);
    PagesAreSlices(orders, size, |o|, k);
    SlicesOfTwoOrders(orders, o, o', p => Bound(p, size, |o|), j, k);
    RepeatedRow(o, o', b);
  }

  /**
   * Whatever orders the separate page queries see, the pages together show every matching row exactly once: exactly
   * when no two rows with equal created_at lie on either side of a page boundary.
   */
  lemma PagesPartitionIff(o: seq<Row>, size: nat, k: nat)
    requires Descending(o) && Distinct(o) && 0 < size && |o| <= k * size
    ensures (forall orders: nat -> seq<Row> :: (forall p :: IsResult(orders(p), o)) ==> multiset(AllPages(orders, size, k)) == multiset(o))
              <==> NoTieAcrossPages(o, size)
  {
    if NoTieAcrossPages(o, size) {
      forall orders: nat -> seq<Row> | forall p :: IsResult(orders(p), o)
        ensures multiset(AllPages(orders, size, k)) == multiset(o)
      {
        PagesFollowOneOrder(orders, o, size, k);
        assert o[..|o|] == o;
      }
    } else {
      var j: nat :| !CleanCut(o, Bound(j, size, |o|));
      BoundMono(k, k, size, |o|);
      if j > k { BoundMono(k, j, size, |o|); }
      var orders := TieRepeatsARow(o, size, j, k);
    }
  }

  lemma BoundMono(k: nat, j: nat, size: nat, n: nat)
    requires k <= j && n <= k * size
    ensures Bound(j, size, n) == n
  {
    assert k * size <= j * size;
  }

  ghost predicate StrictOrder(rows: seq<Row>) {
    forall i, j :: 0 <= i < j < |rows| ==> CreatedAt(rows[i]) != CreatedAt(rows[j])
  }

  function Matching(f: DeviceListFilter, table: seq<Row>, like: Like): seq<Row> {
    Filter(table, r => Matches(f, r, like))
  }

  lemma TwiceCounted(o: seq<Row>, i: nat, j: nat)
    requires i < j < |o| && o[i] == o[j]
    ensures multiset(o)[o[i]] >= 2
  {
    assert o == o[..i] + [o[i]] + o[i + 1..j] + [o[j]] + o[j + 1..];
  }

  lemma ResultIsStrict(f: DeviceListFilter, table: seq<Row>, like: Like, o: seq<Row>)
    requires StrictOrder(table) && IsResult(o, Matching(f, table, like))
    ensures StrictOrder(o)
  {
    forall i, j | 0 <= i < j < |o| ensures CreatedAt(o[i]) != CreatedAt(o[j]) {
      var x, y := o[i], o[j];
      assert x in multiset(o) && y in multiset(o);
      FilterMembers(table, r => Matches(f, r, like), x);
      FilterMembers(table, r => Matches(f, r, like), y);
      var u :| 0 <= u < |table| && table[u] == x;
      var v :| 0 <= v < |table| && table[v] == y;
      if x == y {
        TwiceCounted(o, i, j);
        DistinctCount(table, u);
      } else {
        assert u < v || v < u;
      }
    }
  }

  /**
   * The list as a whole: with distinct creation instants, the pages 1 to k of a filter, at the size the builder really
   * uses, show each row the filter means exactly once, and as many rows as the count query reports.
   */
  lemma ListPagesPartition(f: DeviceListFilter, table: seq<Row>, like: Like, orders: nat -> seq<Row>, k: nat)
    requires StrictOrder(table) && forall p :: IsResult(orders(p), Matching(f, table, like))
    requires |Matching(f, table, like)| <= k * ClampedSize(f.pageSize)
    ensures multiset(AllPages(orders, ClampedSize(f.pageSize), k)) == multiset(Matching(f, table, like))
    ensures |AllPages(orders, ClampedSize(f.pageSize), k)| == |Matching(f, table, like)|
  {
    var o, matches := orders(0), Matching(f, table, like);
    ResultIsStrict(f, table, like, o);
    assert |o| == |multiset(o)| == |multiset(matches)| == |matches|;
    assert forall p :: IsResult(orders(p), matches) ==> IsResult(orders(p), o);
    PagesFollowOneOrder(orders, o, ClampedSize(f.pageSize), k);
    assert o[..|o|] == o;
    var pages := AllPages(orders, ClampedSize(f.pageSize), k);
    assert |pages| == |multiset(pages)|;
  }

  // --- The pages as requested ---

  /** What the builder's LIMIT and OFFSET arguments cut from the order that page's query happened to see. */
  ghost function RequestedPages(f: DeviceListFilter, orders: nat -> seq<Row>, k: nat): seq<Row> {
    if k == 0 then [] else
      RequestedPages(f, orders, k - 1) + Page(orders(k), LimitOf(f.(page := k)), OffsetOf(f.(page := k)))
  }

  lemma {:induction false} RequestedAreAll(f: DeviceListFilter, orders: nat -> seq<Row>, k: nat)
    ensures RequestedPages(f, orders, k) == AllPages(orders, ClampedSize(f.pageSize), k)
  {
    if k == 0 {
    } else {
      RequestedAreAll(f, orders, k - 1);
    }
  }

  /**
   * Asking for pages 1 to k of a filter, each with the LIMIT and OFFSET that the builder puts among its arguments, shows
   * each row the filter means exactly once, provided the creation instants are distinct and the pages reach to the end.
   */
  lemma RequestedPagesPartition(f: DeviceListFilter, table: seq<Row>, like: Like, orders: nat -> seq<Row>, k: nat)
    requires StrictOrder(table) && forall p :: IsResult(orders(p), Matching(f, table, like))
    requires |Matching(f, table, like)| <= k * LimitOf(f)
    ensures multiset(RequestedPages(f, orders, k)) == multiset(Matching(f, table, like))
    ensures forall r :: multiset(RequestedPages(f, orders, k))[r] == if Matches(f, r, like) then multiset(table)[r] else 0
  {
    ListPagesPartition(f, table, like, orders, k);
    RequestedAreAll(f, orders, k);
    forall r: Row ensures multiset(Matching(f, table, like))[r] == if Matches(f, r, like) then multiset(table)[r] else 0 {
      FilterMembers(table, x => Matches(f, x, like), r);
    }
  }

  /** A row on an earlier page was created no earlier than a row on a later one. */
  lemma NewerPagesFirst(o: seq<Row>, matches: seq<Row>, limit: nat, offset: nat, offset': nat, x: Row, y: Row)
    requires IsResult(o, matches) && offset + limit <= offset'
    requires x in Page(o, limit, offset) && y in Page(o, limit, offset')
    requires "created_at" in x && x["created_at"].Time? && "created_at" in y && y["created_at"].Time?
    ensures x["created_at"].t >= y["created_at"].t
  {
    var i :| offset <= i < Min(offset + limit, |o|) && o[i] == x;
    var j :| offset' <= j < |o| && o[j] == y;
  }
}
