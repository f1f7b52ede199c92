/**
 * The small part of SQL that the device repository writes: comparison clauses with numbered placeholders, joined into
 * WHERE and SET lists. Text is produced exactly as the repository produces it and read back by a parser.
 */
module SqlText {
  import opened Common
  import Strings

  datatype Value = Null | Text(s: string) | Int(i: int) | Bool(b: bool) | Texts(ts: seq<string>) | Time(t: int)

  /** One clause of a WHERE list; the numbers are placeholders. */
  datatype Cond = Eq(column: string, n: nat) | Overlaps(column: string, n: nat) | Search(n: nat, m: nat)

  // --- Numbers ---

  const DIGITS: string := "0123456789"

  function Itoa(n: nat): string {
    if n < 10 then [DIGITS[n]] else Itoa(n / 10) + [DIGITS[n % 10]]
  }

  predicate IsDigit(c: char) {
    '0' <= c <= '9'
  }

  function Atoi(s: string): nat {
    if s == "" then 0 else
      10 * Atoi(s[..|s| - 1]) + (if IsDigit(s[|s| - 1]) then s[|s| - 1] as int - '0' as int else 0)
  }

  lemma DigitValue(d: nat)
    requires d < 10
    ensures IsDigit(DIGITS[d]) && DIGITS[d] as int - '0' as int == d
  {}

  lemma {:induction false} AtoiItoa(n: nat)
    ensures Itoa(n) != "" && Atoi(Itoa(n)) == n
    ensures forall c :: c in Itoa(n) ==> IsDigit(c)
  {
    if n < 10 {
      DigitValue(n);
      assert Itoa(n)[..0] == "";
    } else {
      AtoiItoa(n / 10);
      DigitValue(n % 10);
      assert Itoa(n)[..|Itoa(n)| - 1] == Itoa(n / 10);
    }
  }

  // --- Reading ---

  /** The length of the leading run of characters that satisfy `p`. */
  function Run(s: string, p: char -> bool): (k: nat)
    ensures k <= |s|
  {
    if s == "" || !p(s[0]) then 0 else 1 + Run(s[1..], p)
  }

  lemma {:induction false} RunJoined(a: string, rest: string, p: char -> bool)
    requires forall c :: c in a ==> p(c)
    requires rest == "" || !p(rest[0])
    ensures Run(a + rest, p) == |a|
    ensures (a + rest)[..|a|] == a && (a + rest)[|a|..] == rest
  {
    if a == "" {
      assert a + rest == rest;
    } else {
      RunJoined(a[1..], rest, p);
      assert (a + rest)[1..] == a[1..] + rest;
      assert a[0] in a;
    }
  }

  /** `s` without the prefix `p`, when it has it. */
  function Strip(p: string, s: string): (r: Option<string>)
    ensures r.Some? ==> s == p + r.value
  {
    if |p| <= |s| && s[..|p|] == p then Some(s[|p|..]) else None
  }

  lemma StripOwn(p: string, rest: string)
    ensures Strip(p, p + rest) == Some(rest)
  {
    assert (p + rest)[..|p|] == p && (p + rest)[|p|..] == rest;
  }

  function ReadNat(s: string): (r: Option<(nat, string)>)
    ensures r.Some? ==> |r.value.1| < |s|
  {
    var k := Run(s, IsDigit);
    if k == 0 then None else Some((Atoi(s[..k]), s[k..]))
  }

  lemma ReadItoa(n: nat, rest: string)
    requires rest == "" || !IsDigit(rest[0])
    ensures ReadNat(Itoa(n) + rest) == Some((n, rest))
  {
    AtoiItoa(n);
    RunJoined(Itoa(n), rest, IsDigit);
  }

  predicate IsNameChar(c: char) {
    'a' <= c <= 'z' || c == '_'
  }

  predicate IsName(s: string) {
    forall c :: c in s ==> IsNameChar(c)
  }

  /** A name, the operator `op` and a placeholder number. */
  function ReadNamed(s: string, op: string): (r: Option<(string, nat, string)>)
    ensures r.Some? ==> |r.value.2| < |s|
  {
    var k := Run(s, IsNameChar);
    match Strip(op, s[k..])
    case None => None
    case Some(after) =>
      match ReadNat(after)
      case None => None
      case Some((n, rest)) => Some((s[..k], n, rest))
  }

  lemma ReadNamedOwn(name: string, op: string, n: nat, rest: string)
    requires IsName(name) && op != "" && !IsNameChar(op[0])
    requires rest == "" || !IsDigit(rest[0])
    ensures ReadNamed(name + (op + (Itoa(n) + rest)), op) == Some((name, n, rest))
  {
    RunJoined(name, op + (Itoa(n) + rest), IsNameChar);
    StripOwn(op, Itoa(n) + rest);
    ReadItoa(n, rest);
  }

  const EQ: string := " = $"
  const OVERLAPS: string := " && $"
  const SEARCH_HOST: string := "(hostname ILIKE $"
  const SEARCH_IP: string := " OR ip_address::text ILIKE $"
  const AND: string := " AND "
  const COMMA: string := ", "
  const WHERE: string := "WHERE "

  function Render(c: Cond): string {
    match c
    case Eq(column, n) => column + EQ + Itoa(n)
    case Overlaps(column, n) => column + OVERLAPS + Itoa(n)
    case Search(n, m) => SEARCH_HOST + Itoa(n) + SEARCH_IP + Itoa(m) + ")"
  }

  function ReadSearch(s: string): (r: Option<(Cond, string)>)
    ensures r.Some? ==> |r.value.1| < |s|
  {
    match Strip(SEARCH_HOST, s)
    case None => None
    case Some(s1) =>
      match ReadNat(s1)
      case None => None
      case Some((n, s2)) =>
        match Strip(SEARCH_IP, s2)
        case None => None
        case Some(s3) =>
          match ReadNat(s3)
          case None => None
          case Some((m, s4)) =>
            match Strip(")", s4)
            case None => None
            case Some(rest) => Some((Search(n, m), rest))
  }

  function ReadCond(s: string): (r: Option<(Cond, string)>)
    ensures r.Some? ==> |r.value.1| < |s|
  {
    if s != "" && s[0] == '(' then ReadSearch(s) else
      match ReadNamed(s, EQ)
      case Some((column, n, rest)) => Some((Eq(column, n), rest))
      case None =>
        match ReadNamed(s, OVERLAPS)
        case Some((column, n, rest)) => Some((Overlaps(column, n), rest))
        case None => None
  }

  /** One or more items, as `one` reads them, with `sep` between them and nothing after them. */
  function ReadList<T>(one: string -> Option<(T, string)>, sep: string, s: string): Option<seq<T>>
    decreases |s|
  {
    match one(s)
    case None => None
    case Some((item, rest)) =>
      if rest == "" then Some([item]) else
        match Strip(sep, rest)
        case None => None
        case Some(more) =>
          if |more| >= |s| then None else
            match ReadList(one, sep, more)
            case None => None
            case Some(items) => Some([item] + items)
  }

  /** A WHERE clause, or nothing at all. */
  function ReadWhere(s: string): Option<seq<Cond>> {
    if s == "" then Some([]) else
      match Strip(WHERE, s)
      case None => None
      case Some(list) => ReadList(ReadCond, AND, list)
  }

  /** A SET list: columns with the placeholders of their new values. */
  function ReadSets(s: string): Option<seq<(string, nat)>> {
    ReadList(ReadSet, COMMA, s)
  }

  function ReadSet(s: string): Option<((string, nat), string)> {
    match ReadNamed(s, EQ)
    case None => None
    case Some((column, n, rest)) => Some(((column, n), rest))
  }

  // --- Whatever is written is read back ---

  predicate Readable(c: Cond) {
    c.Search? || (c.column != "" && IsName(c.column))
  }

  lemma ReadSearchOwn(n: nat, m: nat, rest: string)
    ensures ReadSearch(Render(Search(n, m)) + rest) == Some((Search(n, m), rest))
  {
    var s4 := ")" + rest;
    var s3 := Itoa(m) + s4;
    var s2 := SEARCH_IP + s3;
    var s1 := Itoa(n) + s2;
    assert Render(Search(n, m)) + rest == SEARCH_HOST + s1 by {
      Assoc(SEARCH_HOST + Itoa(n) + SEARCH_IP + Itoa(m), ")", rest);
      Assoc(SEARCH_HOST + Itoa(n) + SEARCH_IP, Itoa(m), s4);
      Assoc(SEARCH_HOST + Itoa(n), SEARCH_IP, s3);
      Assoc(SEARCH_HOST, Itoa(n), s2);
    }
    ReadSearchPieces(n, m, rest);
  }

  lemma Assoc(a: string, b: string, c: string)
    ensures a + b + c == a + (b + c)
  {}

  lemma ReadSearchPieces(n: nat, m: nat, rest: string)
    ensures ReadSearch(SEARCH_HOST + (Itoa(n) + (SEARCH_IP + (Itoa(m) + (")" + rest))))) == Some((Search(n, m), rest))
  {
    var s4 := ")" + rest;
    var s3 := Itoa(m) + s4;
    var s2 := SEARCH_IP + s3;
    var s1 := Itoa(n) + s2;
    StripOwn(SEARCH_HOST, s1);
    ReadItoa(n, s2);
    StripOwn(SEARCH_IP, s3);
    ReadItoa(m, s4);
    StripOwn(")", rest);
  }

  lemma ReadEqOwn(column: string, n: nat, rest: string)
    requires column != "" && IsName(column) && (rest == "" || !IsDigit(rest[0]))
    ensures ReadNamed(Render(Eq(column, n)) + rest, EQ) == Some((column, n, rest))
    ensures (Render(Eq(column, n)) + rest)[0] == column[0]
  {
    assert Render(Eq(column, n)) + rest == column + (EQ + (Itoa(n) + rest));
    ReadNamedOwn(column, EQ, n, rest);
  }

  lemma ReadOverlapsOwn(column: string, n: nat, rest: string)
    requires column != "" && IsName(column) && (rest == "" || !IsDigit(rest[0]))
    ensures ReadNamed(Render(Overlaps(column, n)) + rest, EQ) == None
    ensures ReadNamed(Render(Overlaps(column, n)) + rest, OVERLAPS) == Some((column, n, rest))
    ensures (Render(Overlaps(column, n)) + rest)[0] == column[0]
  {
    var tail := OVERLAPS + (Itoa(n) + rest);
    assert Render(Overlaps(column, n)) + rest == column + tail;
    ReadNamedOwn(column, OVERLAPS, n, rest);
    RunJoined(column, tail, IsNameChar);
    assert tail[1] == '&' && EQ[1] == '=';
    assert Strip(EQ, tail) == None;
  }

  lemma ReadOwn(c: Cond, rest: string)
    requires Readable(c) && (rest == "" || !IsDigit(rest[0]))
    ensures ReadCond(Render(c) + rest) == Some((c, rest))
  {
    match c
    case Eq(column, n) =>
      ReadEqOwn(column, n, rest);
      assert column[0] in column;
    case Overlaps(column, n) =>
      ReadOverlapsOwn(column, n, rest);
      assert column[0] in column;
    case Search(n, m) =>
      ReadSearchOwn(n, m, rest);
  }

  function Rendered(cs: seq<Cond>): seq<string> {
    seq(|cs|, i requires 0 <= i < |cs| => Render(cs[i]))
  }

  lemma {:induction false} ReadListJoined<T>(one: string -> Option<(T, string)>, sep: string, items: seq<T>, parts: seq<string>)
    requires |items| == |parts| > 0
    requires forall i :: 0 <= i < |parts| ==> parts[i] != ""
    requires forall i, rest :: 0 <= i < |parts| && (rest == "" || sep <= rest) ==> one(parts[i] + rest) == Some((items[i], rest))
    ensures ReadList(one, sep, Strings.Join(parts, sep)) == Some(items)
    decreases |items|
  {
    if |items| == 1 {
      assert one(parts[0] + "") == Some((items[0], ""));
      assert parts[0] + "" == parts[0] && items == [items[0]];
    } else {
      var more := Strings.Join(parts[1..], sep);
      Assoc(parts[0], sep, more);
      assert one(parts[0] + (sep + more)) == Some((items[0], sep + more));
      StripOwn(sep, more);
      JoinNotEmpty(parts[1..], sep);
      ReadListJoined(one, sep, items[1..], parts[1..]);
      assert [items[0]] + items[1..] == items;
    }
  }

  lemma JoinNotEmpty(parts: seq<string>, sep: string)
    requires parts != [] && parts[0] != ""
    ensures Strings.Join(parts, sep) != ""
  {}

  function WhereText(parts: seq<string>): string {
    if parts == [] then "" else WHERE + Strings.Join(parts, AND)
  }

  /** The WHERE clause written for a list of clauses reads as that list. */
  lemma ReadWhereText(cs: seq<Cond>)
    requires forall c :: c in cs ==> Readable(c)
    ensures ReadWhere(WhereText(Rendered(cs))) == Some(cs)
  {
    var parts := Rendered(cs);
    if cs != [] {
      StripOwn(WHERE, Strings.Join(parts, AND));
      forall i, rest | 0 <= i < |parts| && (rest == "" || AND <= rest)
        ensures parts[i] != "" && ReadCond(parts[i] + rest) == Some((cs[i], rest))
      {
        assert cs[i] in cs;
        ReadOwn(cs[i], rest);
      }
      ReadListJoined(ReadCond, AND, cs, parts);
    }
  }

  function RenderedSets(sets: seq<(string, nat)>): seq<string> {
    seq(|sets|, i requires 0 <= i < |sets| => Render(Eq(sets[i].0, sets[i].1)))
  }

  /** The SET list written for a list of assignments reads as that list. */
  lemma ReadSetText(sets: seq<(string, nat)>)
    requires sets != [] && forall i :: 0 <= i < |sets| ==> sets[i].0 != "" && IsName(sets[i].0)
    ensures ReadSets(Strings.Join(RenderedSets(sets), COMMA)) == Some(sets)
  {
    var parts := RenderedSets(sets);
    forall i, rest | 0 <= i < |parts| && (rest == "" || COMMA <= rest)
      ensures parts[i] != "" && ReadSet(parts[i] + rest) == Some((sets[i], rest))
    {
      ReadEqOwn(sets[i].0, sets[i].1, rest);
    }
    ReadListJoined(ReadSet, COMMA, sets, parts);
  }
}
