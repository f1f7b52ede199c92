/** Small vocabulary shared by the models: optional values, error returns and folds over lists. */
module Common {
  datatype Option<+T> = None | Some(value: T)

  datatype Result<+T> = Ok(value: T) | Err(error: string)

  function Max(a: int, b: int): (m: int)
    ensures a <= m && b <= m && (m == a || m == b)
  {
    if a < b then b else a
  }

  function Min(a: int, b: int): (m: int)
    ensures m <= a && m <= b && (m == a || m == b)
  {
    if a < b then a else b
  }

  function Pow2(n: nat): nat {
    if n == 0 then 1 else 2 * Pow2(n - 1)
  }

  ghost predicate Distinct<T>(s: seq<T>) {
    forall i, j :: 0 <= i < j < |s| ==> s[i] != s[j]
  }

  lemma SubsetSize<T>(a: set<T>, b: set<T>)
    requires a <= b
    ensures |a| <= |b|
  {
    assert b == a + (b - a);
  }

  /** Instants that never run backwards, none of them before `from`. */
  ghost predicate ClockFrom(times: seq<int>, from: int) {
    && (forall i :: 0 <= i < |times| ==> from <= times[i])
    && (forall i, j :: 0 <= i <= j < |times| ==> times[i] <= times[j])
  }

  /** The elements of `s` that satisfy `p`, in order. */
  function Filter<T>(s: seq<T>, p: T -> bool): seq<T> {
    if s == [] then [] else
      (if p(s[0]) then [s[0]] else []) + Filter(s[1..], p)
  }

  lemma {:induction false} FilterAppend<T>(s: seq<T>, t: seq<T>, p: T -> bool)
    ensures Filter(s + t, p) == Filter(s, p) + Filter(t, p)
  {
    if s == [] {
      assert s + t == t;
    } else {
      FilterAppend(s[1..], t, p);
      assert (s + t)[1..] == s[1..] + t && (s + t)[0] == s[0];
      var head := if p(s[0]) then [s[0]] else [];
      assert head + (Filter(s[1..], p) + Filter(t, p)) == (head + Filter(s[1..], p)) + Filter(t, p);
    }
  }

  lemma {:induction false} FilterMembers<T>(s: seq<T>, p: T -> bool, x: T)
    ensures x in Filter(s, p) <==> x in s && p(x)
    ensures multiset(Filter(s, p))[x] == if p(x) then multiset(s)[x] else 0
  {
    if s == [] {
    } else {
      FilterMembers(s[1..], p, x);
      assert s == [s[0]] + s[1..];
    }
  }

  /** Filtering keeps equally many from two orders of the same elements. */
  lemma FilterOfPermutation<T>(a: seq<T>, b: seq<T>, p: T -> bool)
    requires multiset(a) == multiset(b)
    ensures multiset(Filter(a, p)) == multiset(Filter(b, p)) && |Filter(a, p)| == |Filter(b, p)|
  {
    var m, n := multiset(Filter(a, p)), multiset(Filter(b, p));
    forall x: T ensures m[x] == n[x] {
      FilterMembers(a, p, x);
      FilterMembers(b, p, x);
    }
    SameCounts(m, n);
    assert |Filter(a, p)| == |m| && |Filter(b, p)| == |n|;
  }

  lemma SameCounts<T>(m: multiset<T>, n: multiset<T>)
    requires forall x: T :: m[x] == n[x]
    ensures m == n
  {
  }

  /** A weaker test keeps no fewer. */
  lemma {:induction false} FilterSizes<T>(s: seq<T>, p: T -> bool, q: T -> bool)
    requires forall i :: 0 <= i < |s| && p(s[i]) ==> q(s[i])
    ensures |Filter(s, p)| <= |Filter(s, q)| <= |s|
  {
    if s == [] {
    } else {
      FilterSizes(s[1..], p, q);
    }
  }

  lemma {:induction false} FilterAll<T>(s: seq<T>, p: T -> bool)
    requires forall i :: 0 <= i < |s| ==> p(s[i])
    ensures Filter(s, p) == s
  {
    if s == [] {
    } else {
      FilterAll(s[1..], p);
      assert s == [s[0]] + s[1..];
    }
  }

  lemma {:induction false} FilterNone<T>(s: seq<T>, p: T -> bool)
    requires forall i :: 0 <= i < |s| ==> !p(s[i])
    ensures Filter(s, p) == []
  {
    if s == [] {
    } else {
      FilterNone(s[1..], p);
    }
  }

  lemma {:induction false} FilterFrom<T>(s: seq<T>, p: T -> bool, at: T -> int, from: int)
    requires forall i :: 0 <= i < |s| ==> from <= at(s[i])
    ensures forall i :: 0 <= i < |Filter(s, p)| ==> from <= at(Filter(s, p)[i])
  {
    if s == [] {
    } else {
      FilterFrom(s[1..], p, at, from);
    }
  }

  /** What is left of an ordered run is ordered. */
  lemma {:induction false} FilterOrdered<T>(s: seq<T>, p: T -> bool, at: T -> int)
    requires forall i, j :: 0 <= i <= j < |s| ==> at(s[i]) <= at(s[j])
    ensures forall i, j :: 0 <= i <= j < |Filter(s, p)| ==> at(Filter(s, p)[i]) <= at(Filter(s, p)[j])
  {
    if s == [] {
    } else {
      FilterOrdered(s[1..], p, at);
      FilterFrom(s[1..], p, at, at(s[0]));
    }
  }

  /** Filtering twice is filtering by both tests. */
  lemma {:induction false} FilterTwice<T>(s: seq<T>, p: T -> bool, q: T -> bool)
    requires forall x :: q(x) ==> p(x)
    ensures Filter(Filter(s, p), q) == Filter(s, q)
  {
    if s == [] {
    } else {
      FilterTwice(s[1..], p, q);
      var head := if p(s[0]) then [s[0]] else [];
      FilterAppend(head, Filter(s[1..], p), q);
      assert Filter([s[0]], q) == if q(s[0]) then [s[0]] else [] by {
        assert [s[0]][1..] == [];
      }
    }
  }
}
