/** The string functions that several components call: substring tests, trimming, splitting, case folding. */
module Strings {
  predicate OccursAt(s: string, part: string, i: nat) {
    i + |part| <= |s| && s[i..i + |part|] == part
  }

  predicate Contains(s: string, part: string) {
    exists i: nat | i <= |s| :: OccursAt(s, part, i)
  }

  /** Containing is standing somewhere between two texts. */
  lemma ContainsIff(s: string, part: string)
    ensures Contains(s, part) <==> exists a, b :: s == a + part + b
  {
    if Contains(s, part) {
      var i: nat :| i <= |s| && OccursAt(s, part, i);
      assert s == s[..i] + part + s[i + |part|..];
    }
    if a, b :| s == a + part + b {
      assert OccursAt(s, part, |a|);
    }
  }

  lemma ContainsSlice(s: string, a: nat, b: nat)
    requires a <= b <= |s|
    ensures Contains(s, s[a..b])
  {
    assert OccursAt(s, s[a..b], a);
  }

  lemma ContainsTransitive(s: string, t: string, part: string)
    requires Contains(s, t) && Contains(t, part)
    ensures Contains(s, part)
  {
    var i: nat :| i <= |s| && OccursAt(s, t, i);
    var j: nat :| j <= |t| && OccursAt(t, part, j);
    SliceOfSlice(s, i, i + |t|, j, j + |part|);
    assert OccursAt(s, part, i + j);
  }

  lemma SliceOfSlice(s: string, a: nat, b: nat, c: nat, d: nat)
    requires a <= b <= |s| && c <= d <= b - a
    ensures s[a..b][c..d] == s[a + c..a + d]
  {
    var inner, outer := s[a..b][c..d], s[a + c..a + d];
    forall k | 0 <= k < d - c ensures inner[k] == outer[k] {
      assert inner[k] == s[a..b][c + k] == s[a + c + k];
    }
  }

  predicate HasPrefix(s: string, prefix: string) {
    |prefix| <= |s| && s[..|prefix|] == prefix
  }

  /** Lower-casing, one character at a time by a table given by the caller. */
  function ToLower(s: string, lower: char -> char): (r: string)
    ensures |r| == |s| && forall i :: 0 <= i < |s| ==> r[i] == lower(s[i])
  {
    seq(|s|, i requires 0 <= i < |s| => lower(s[i]))
  }

  lemma ContainsLower(s: string, t: string, lower: char -> char)
    requires Contains(s, t)
    ensures Contains(ToLower(s, lower), ToLower(t, lower))
  {
    var i: nat :| i <= |s| && OccursAt(s, t, i);
    forall k | 0 <= k < |t| ensures s[i + k] == t[k] {
      assert s[i..i + |t|][k] == t[k];
    }
    assert ToLower(s, lower)[i..i + |t|] == ToLower(t, lower);
    assert OccursAt(ToLower(s, lower), ToLower(t, lower), i);
  }

  /** White space as the trimming function of the source's library defines it. */
  predicate IsSpace(c: char) {
    || c in " \t\n\r"
    || c as int in {0x0B, 0x0C, 0x85, 0xA0, 0x1680, 0x2028, 0x2029, 0x202F, 0x205F, 0x3000}
    || 0x2000 <= c as int <= 0x200A
  }

  /** Among ASCII characters. */
  lemma SpaceIff(c: char)
    requires c as int < 0x80
    ensures IsSpace(c) <==> c as int in {9, 10, 11, 12, 13, 32}
  {
    assert ' ' as int == 32 && '\t' as int == 9 && '\n' as int == 10 && '\r' as int == 13;
    assert c in " \t\n\r" <==> c == ' ' || c == '\t' || c == '\n' || c == '\r';
  }

  function TrimRight(s: string): string {
    if s != "" && IsSpace(s[|s| - 1]) then TrimRight(s[..|s| - 1]) else s
  }

  function TrimLeft(s: string): string {
    if s != "" && IsSpace(s[0]) then TrimLeft(s[1..]) else s
  }

  function Trim(s: string): string {
    TrimLeft(TrimRight(s))
  }

  ghost predicate AllSpace(s: string) {
    forall c :: c in s ==> IsSpace(c)
  }

  lemma {:induction false} TrimRightIs(s: string) returns (b: string)
    ensures s == TrimRight(s) + b && AllSpace(b)
    ensures TrimRight(s) != "" ==> !IsSpace(TrimRight(s)[|TrimRight(s)| - 1])
  {
    if s != "" && IsSpace(s[|s| - 1]) {
      b := TrimRightIs(s[..|s| - 1]);
      assert s == s[..|s| - 1] + [s[|s| - 1]];
      b := b + [s[|s| - 1]];
    } else {
      b := "";
    }
  }

  lemma {:induction false} TrimLeftIs(s: string) returns (a: string)
    ensures s == a + TrimLeft(s) && AllSpace(a)
    ensures TrimLeft(s) != "" ==> !IsSpace(TrimLeft(s)[0])
  {
    if s != "" && IsSpace(s[0]) {
      a := TrimLeftIs(s[1..]);
      assert s == [s[0]] + s[1..];
      a := [s[0]] + a;
    } else {
      a := "";
    }
  }

  /** Trimming removes white space at both ends, all of it, and nothing else. */
  lemma TrimIs(s: string) returns (a: string, b: string)
    ensures s == a + Trim(s) + b && AllSpace(a) && AllSpace(b)
    ensures Trim(s) != "" ==> !IsSpace(Trim(s)[0]) && !IsSpace(Trim(s)[|Trim(s)| - 1])
  {
    b := TrimRightIs(s);
    a := TrimLeftIs(TrimRight(s));
    var t := TrimRight(s);
    assert Trim(s) != "" ==> Trim(s)[|Trim(s)| - 1] == t[|t| - 1];
  }

  lemma {:induction false} TrimRightIsPart(s: string)
    ensures Contains(s, TrimRight(s))
  {
    if s != "" && IsSpace(s[|s| - 1]) {
      TrimRightIsPart(s[..|s| - 1]);
      ContainsSlice(s, 0, |s| - 1);
      ContainsTransitive(s, s[..|s| - 1], TrimRight(s));
    } else {
      ContainsSlice(s, 0, |s|);
      assert s[0..|s|] == s;
    }
  }

  lemma {:induction false} TrimLeftIsPart(s: string)
    ensures Contains(s, TrimLeft(s))
  {
    if s != "" && IsSpace(s[0]) {
      TrimLeftIsPart(s[1..]);
      ContainsSlice(s, 1, |s|);
      assert s[1..|s|] == s[1..];
      ContainsTransitive(s, s[1..], TrimLeft(s));
    } else {
      ContainsSlice(s, 0, |s|);
      assert s[0..|s|] == s;
    }
  }

  lemma TrimIsPart(s: string)
    ensures Contains(s, Trim(s))
  {
    TrimRightIsPart(s);
    TrimLeftIsPart(TrimRight(s));
    ContainsTransitive(s, TrimRight(s), Trim(s));
  }

  /** The position of the first `sep`, or the length. */
  function Find(s: string, sep: char): (i: nat)
    ensures i <= |s|
    ensures i < |s| ==> s[i] == sep
    ensures forall j :: 0 <= j < i ==> s[j] != sep
  {
    if s == "" || s[0] == sep then 0 else 1 + Find(s[1..], sep)
  }

  function Split(s: string, sep: char): (parts: seq<string>)
    ensures parts != []
    decreases |s|
  {
    var i := Find(s, sep);
    if i == |s| then [s] else [s[..i]] + Split(s[i + 1..], sep)
  }

  lemma {:induction false} SplitIsPart(s: string, sep: char, k: nat)
    requires k < |Split(s, sep)|
    ensures Contains(s, Split(s, sep)[k])
    decreases |s|
  {
    var i := Find(s, sep);
    if i == |s| {
      ContainsSlice(s, 0, |s|);
      assert s[0..|s|] == s;
    } else if k == 0 {
      ContainsSlice(s, 0, i);
    } else {
      var rest := s[i + 1..];
      SplitIsPart(rest, sep, k - 1);
      ContainsSlice(s, i + 1, |s|);
      assert s[i + 1..|s|] == rest;
      assert Split(s, sep)[k] == Split(rest, sep)[k - 1];
      ContainsTransitive(s, s[i + 1..], Split(s, sep)[k]);
    }
  }

  function Join(parts: seq<string>, sep: string): string {
    if parts == [] then "" else if |parts| == 1 then parts[0] else parts[0] + sep + Join(parts[1..], sep)
  }

  lemma FindIs(a: string, rest: string, sep: char)
    requires sep !in a && (rest == "" || rest[0] == sep)
    ensures Find(a + rest, sep) == |a|
  {
    forall j | 0 <= j < |a| ensures (a + rest)[j] != sep {
      assert (a + rest)[j] == a[j] && a[j] in a;
    }
    assert rest != "" ==> (a + rest)[|a|] == rest[0];
  }

  /** Splitting undoes joining: fields without the separator are read back, as many and in order. */
  lemma {:induction false} SplitJoined(parts: seq<string>, sep: char)
    requires parts != [] && forall i :: 0 <= i < |parts| ==> sep !in parts[i]
    ensures Split(Join(parts, [sep]), sep) == parts
  {
    if |parts| == 1 {
      FindIs(parts[0], "", sep);
      assert parts[0] + "" == parts[0] && parts == [parts[0]];
    } else {
      var more := Join(parts[1..], [sep]);
      SplitJoined(parts[1..], sep);
      assert parts[0] + [sep] + more == parts[0] + ([sep] + more);
      FindIs(parts[0], [sep] + more, sep);
      assert (parts[0] + ([sep] + more))[|parts[0]| + 1..] == more;
      assert (parts[0] + ([sep] + more))[..|parts[0]|] == parts[0];
      assert [parts[0]] + parts[1..] == parts;
    }
  }
}
