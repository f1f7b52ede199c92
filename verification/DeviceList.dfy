/**
 * The query builder behind the device list (DeviceRepository.List, backend/internal/db/device_repository.go), against
 * what a filter means, and the pages it cuts. The database is a sequence of rows; ILIKE is a predicate given by the caller.
 */
module DeviceList {
  import opened Common
  import opened SqlText
  import Strings

  type Row = map<string, Value>

  /** Matches a text against an ILIKE pattern. */
  type Like = (string, string) -> bool

  datatype DeviceListFilter = DeviceListFilter(
    deviceType: Option<string>, status: Option<string>, location: Option<string>, tags: seq<string>,
    search: Option<string>, page: int, pageSize: int)

  function Get(row: Row, column: string): Value {
    if column in row then row[column] else Null
  }

  // --- What the database does with the text ---

  predicate LikeColumn(row: Row, column: string, pattern: Value, like: Like) {
    Get(row, column).Text? && pattern.Text? && like(Get(row, column).s, pattern.s)
  }

  predicate Share(a: seq<string>, b: seq<string>) {
    exists i :: 0 <= i < |a| && a[i] in b
  }

  predicate InRange(n: nat, args: seq<Value>) {
    1 <= n <= |args|
  }

  predicate CondInRange(c: Cond, args: seq<Value>) {
    InRange(c.n, args) && (c.Search? ==> InRange(c.m, args))
  }

  /** A comparison with NULL is not true. */
  predicate Holds(c: Cond, args: seq<Value>, row: Row, like: Like)
    requires CondInRange(c, args)
  {
    match c
    case Eq(column, n) => Get(row, column) != Null && Get(row, column) == args[n - 1]
    case Overlaps(column, n) => Get(row, column).Texts? && args[n - 1].Texts? && Share(Get(row, column).ts, args[n - 1].ts)
    case Search(n, m) => LikeColumn(row, "hostname", args[n - 1], like) || LikeColumn(row, "ip_address", args[m - 1], like)
  }

  /** Runs a WHERE text on one row: an unreadable text, or a placeholder without an argument, is an error. */
  ghost function EvalWhere(text: string, args: seq<Value>, row: Row, like: Like): Option<bool> {
    match ReadWhere(text)
    case None => None
    case Some(cs) =>
      if forall c :: c in cs ==> CondInRange(c, args)
      then Some(forall c :: c in cs ==> Holds(c, args, row, like)) else None
  }

  // --- What a filter means ---

  predicate Equals(row: Row, column: string, wanted: Option<string>) {
    wanted.Some? ==> Get(row, column) == Text(wanted.value)
  }

  function Pattern(search: string): string {
    "%" + search + "%"
  }

  /** A field of the filter that is absent, or an empty search or tag list, restricts nothing. */
  predicate Matches(f: DeviceListFilter, row: Row, like: Like) {
    && Equals(row, "device_type", f.deviceType)
    && Equals(row, "status", f.status)
    && Equals(row, "location", f.location)
    && (f.tags != [] ==> Get(row, "tags").Texts? && Share(Get(row, "tags").ts, f.tags))
    && (f.search.Some? && f.search.value != "" ==>
          || LikeColumn(row, "hostname", Text(Pattern(f.search.value)), like)
          || LikeColumn(row, "ip_address", Text(Pattern(f.search.value)), like))
  }

  /** Each field of the filter restricts its own column, and nothing else does. */
  lemma FilterMeans(f: DeviceListFilter, row: Row, like: Like)
    ensures Matches(f, row, like) <==>
              && (f.deviceType.Some? ==> "device_type" in row && row["device_type"] == Text(f.deviceType.value))
              && (f.status.Some? ==> "status" in row && row["status"] == Text(f.status.value))
              && (f.location.Some? ==> "location" in row && row["location"] == Text(f.location.value))
              && (f.tags != [] ==> "tags" in row && row["tags"].Texts? && exists t :: t in row["tags"].ts && t in f.tags)
              && (f.search.Some? && f.search.value != "" ==>
                    || ("hostname" in row && row["hostname"].Text? && like(row["hostname"].s, "%" + f.search.value + "%"))
                    || ("ip_address" in row && row["ip_address"].Text? && like(row["ip_address"].s, "%" + f.search.value + "%")))
  {
    if f.tags != [] && "tags" in row && row["tags"].Texts? { ShareIff(row["tags"].ts, f.tags); }
  }

  lemma ShareIff(a: seq<string>, b: seq<string>)
    ensures Share(a, b) <==> exists t :: t in a && t in b
  {
    if t :| t in a && t in b {
      var i :| 0 <= i < |a| && a[i] == t;
    }
  }

  // --- The builder ---

  /** A clause without its number, and the argument that goes with it. */
  datatype Part = EqPart(column: string, arg: Value) | OverlapsPart(column: string, arg: Value) | SearchPart(arg: Value)

  function Numbered(p: Part, n: nat): Cond {
    match p
    case EqPart(column, _) => Eq(column, n)
    case OverlapsPart(column, _) => Overlaps(column, n)
    case SearchPart(_) => Search(n, n)
  }

  function EqParts(column: string, wanted: Option<string>): seq<Part> {
    if wanted.Some? then [EqPart(column, Text(wanted.value))] else []
  }

  function TagParts(tags: seq<string>): seq<Part> {
    if tags != [] then [OverlapsPart("tags", Texts(tags))] else []
  }

  function SearchParts(search: Option<string>): seq<Part> {
    if search.Some? && search.value != "" then [SearchPart(Text(Pattern(search.value)))] else []
  }

  function Parts(f: DeviceListFilter): seq<Part> {
    EqParts("device_type", f.deviceType) + EqParts("status", f.status) + EqParts("location", f.location)
      + TagParts(f.tags) + SearchParts(f.search)
  }

  function Conds(parts: seq<Part>): seq<Cond> {
    seq(|parts|, i requires 0 <= i < |parts| => Numbered(parts[i], i + 1))
  }

  function Args(parts: seq<Part>): seq<Value> {
    seq(|parts|, i requires 0 <= i < |parts| => parts[i].arg)
  }

  /** The builder's three variables hold exactly `parts`. */
  ghost predicate Built(clauses: seq<string>, args: seq<Value>, argPos: nat, parts: seq<Part>) {
    clauses == Rendered(Conds(parts)) && args == Args(parts) && argPos == |parts| + 1
  }

  lemma BuiltNext(clauses: seq<string>, args: seq<Value>, argPos: nat, parts: seq<Part>, part: Part)
    requires Built(clauses, args, argPos, parts)
    ensures Built(clauses + [Render(Numbered(part, argPos))], args + [part.arg], argPos + 1, parts + [part])
  {
    assert Conds(parts + [part]) == Conds(parts) + [Numbered(part, argPos)];
    assert Rendered(Conds(parts + [part])) == Rendered(Conds(parts)) + [Render(Numbered(part, argPos))];
    assert Args(parts + [part]) == Args(parts) + [part.arg];
  }

  /** The three variables a builder grows, clause by clause. */
  class Builder {
    var clauses: seq<string>
    var args: seq<Value>
    var argPos: nat
    ghost var parts: seq<Part>

    ghost predicate Valid()
      reads this
    {
      Built(clauses, args, argPos, parts)
    }

    constructor ()
      ensures Valid() && parts == []
    {
      clauses, args, argPos, parts := [], [], 1, [];
    }

    /** The block for an optional equality. */
    method AddEqual(column: string, wanted: Option<string>)
      requires Valid()
      modifies this
      ensures Valid() && parts == old(parts) + EqParts(column, wanted)
    {
      if wanted.Some? {
        ghost var part := EqPart(column, Text(wanted.value));
        BuiltNext(clauses, args, argPos, parts, part);
        clauses := clauses + [column + " = $" + Itoa(argPos)];
        args := args + [Text(wanted.value)];
        argPos := argPos + 1;
        parts := parts + [part];
      }
    }

    method AddTags(tags: seq<string>)
      requires Valid()
      modifies this
      ensures Valid() && parts == old(parts) + TagParts(tags)
    {
      if |tags| > 0 {
        ghost var part := OverlapsPart("tags", Texts(tags));
        BuiltNext(clauses, args, argPos, parts, part);
        clauses := clauses + ["tags" + " && $" + Itoa(argPos)];
        args := args + [Texts(tags)];
        argPos := argPos + 1;
        parts := parts + [part];
      }
    }

    method AddSearch(search: Option<string>)
      requires Valid()
      modifies this
      ensures Valid() && parts == old(parts) + SearchParts(search)
    {
      if search.Some? && search.value != "" {
        ghost var part := SearchPart(Text(Pattern(search.value)));
        BuiltNext(clauses, args, argPos, parts, part);
        clauses := clauses + ["(hostname ILIKE $" + Itoa(argPos) + " OR ip_address::text ILIKE $" + Itoa(argPos) + ")"];
        args := args + [Text("%" + search.value + "%")];
        argPos := argPos + 1;
        parts := parts + [part];
      }
    }
  }

  // --- The text means the filter ---

  ghost predicate PartHolds(p: Part, row: Row, like: Like) {
    match p
    case EqPart(column, arg) => Get(row, column) != Null && Get(row, column) == arg
    case OverlapsPart(column, arg) => Get(row, column).Texts? && arg.Texts? && Share(Get(row, column).ts, arg.ts)
    case SearchPart(arg) => LikeColumn(row, "hostname", arg, like) || LikeColumn(row, "ip_address", arg, like)
  }

  lemma NumberedHolds(parts: seq<Part>, i: nat, more: seq<Value>, row: Row, like: Like)
    requires i < |parts|
    ensures CondInRange(Conds(parts)[i], Args(parts) + more)
    ensures Holds(Conds(parts)[i], Args(parts) + more, row, like) <==> PartHolds(parts[i], row, like)
  {
    assert (Args(parts) + more)[i] == parts[i].arg;
  }

  lemma ColumnNames()
    ensures IsName("device_type") && IsName("status") && IsName("location") && IsName("tags")
  {}

  ghost predicate ReadablePart(p: Part) {
    !p.SearchPart? ==> p.column != "" && IsName(p.column)
  }

  lemma PartReadable(f: DeviceListFilter, p: Part)
    requires p in Parts(f)
    ensures ReadablePart(p)
  {
    ColumnNames();
    if p in EqParts("device_type", f.deviceType) {
    } else if p in EqParts("status", f.status) {
    } else if p in EqParts("location", f.location) {
    } else if p in TagParts(f.tags) {
    } else {
      assert p in SearchParts(f.search);
    }
  }

  lemma CondsReadable(parts: seq<Part>)
    requires forall p :: p in parts ==> ReadablePart(p)
    ensures forall c :: c in Conds(parts) ==> Readable(c)
  {
    forall c | c in Conds(parts) ensures Readable(c) {
      var i :| 0 <= i < |parts| && Conds(parts)[i] == c;
      assert parts[i] in parts;
    }
  }

  ghost predicate AllHold(parts: seq<Part>, row: Row, like: Like) {
    forall p :: p in parts ==> PartHolds(p, row, like)
  }

  lemma AllHoldConcat(a: seq<Part>, b: seq<Part>, row: Row, like: Like)
    ensures AllHold(a + b, row, like) <==> AllHold(a, row, like) && AllHold(b, row, like)
  {
    assert forall p :: p in a + b <==> p in a || p in b;
  }

  lemma EqMeans(column: string, wanted: Option<string>, row: Row, like: Like)
    ensures AllHold(EqParts(column, wanted), row, like) <==> Equals(row, column, wanted)
  {
    if wanted.Some? { AllHoldOne(EqPart(column, Text(wanted.value)), row, like); }
  }

  lemma AllHoldOne(p: Part, row: Row, like: Like)
    ensures AllHold([p], row, like) <==> PartHolds(p, row, like)
  {
    assert p in [p];
  }

  lemma TagsAndSearchMean(f: DeviceListFilter, row: Row, like: Like)
    ensures AllHold(TagParts(f.tags), row, like) <==> Matches(DeviceListFilter(None, None, None, f.tags, None, 0, 0), row, like)
    ensures AllHold(SearchParts(f.search), row, like) <==> Matches(DeviceListFilter(None, None, None, [], f.search, 0, 0), row, like)
  {
    if f.tags != [] { AllHoldOne(OverlapsPart("tags", Texts(f.tags)), row, like); }
    if f.search.Some? { AllHoldOne(SearchPart(Text(Pattern(f.search.value))), row, like); }
  }

  lemma PartsMeanFilter(f: DeviceListFilter, row: Row, like: Like)
    ensures AllHold(Parts(f), row, like) <==> Matches(f, row, like)
  {
    var p1, p2, p3 := EqParts("device_type", f.deviceType), EqParts("status", f.status), EqParts("location", f.location);
    var p4, p5 := TagParts(f.tags), SearchParts(f.search);
    AllHoldConcat(p1 + p2 + p3 + p4, p5, row, like);
    AllHoldConcat(p1 + p2 + p3, p4, row, like);
    AllHoldConcat(p1 + p2, p3, row, like);
    AllHoldConcat(p1, p2, row, like);
    EqMeans("device_type", f.deviceType, row, like);
    EqMeans("status", f.status, row, like);
    EqMeans("location", f.location, row, like);
    TagsAndSearchMean(f, row, like);
  }

  lemma CondsMeanParts(parts: seq<Part>, more: seq<Value>, row: Row, like: Like)
    ensures forall c :: c in Conds(parts) ==> CondInRange(c, Args(parts) + more)
    ensures (forall c :: c in Conds(parts) ==> Holds(c, Args(parts) + more, row, like)) <==> AllHold(parts, row, like)
  {
    var cs, args := Conds(parts), Args(parts) + more;
    forall i: nat | i < |parts|
      ensures CondInRange(cs[i], args) && (Holds(cs[i], args, row, like) <==> PartHolds(parts[i], row, like))
    {
      NumberedHolds(parts, i, more, row, like);
    }
    if forall c :: c in cs ==> Holds(c, args, row, like) {
      forall p | p in parts ensures PartHolds(p, row, like) {
        var i :| 0 <= i < |parts| && parts[i] == p;
        assert cs[i] in cs;
      }
    } else {
      var c :| c in cs && !Holds(c, args, row, like);
      var i :| 0 <= i < |cs| && cs[i] == c;
      assert parts[i] in parts;
    }
  }

  /** The WHERE text with its arguments, alone or with LIMIT and OFFSET behind them, selects exactly the rows the filter means. */
  lemma WhereMeansFilter(f: DeviceListFilter, more: seq<Value>, row: Row, like: Like)
    ensures EvalWhere(WhereText(Rendered(Conds(Parts(f)))), Args(Parts(f)) + more, row, like) == Some(Matches(f, row, like))
  {
    forall p | p in Parts(f) ensures ReadablePart(p) { PartReadable(f, p); }
    CondsReadable(Parts(f));
    ReadWhereText(Conds(Parts(f)));
    CondsMeanParts(Parts(f), more, row, like);
    PartsMeanFilter(f, row, like);
  }

  /** Every placeholder has its argument, and every argument its placeholder: LIMIT and OFFSET take the last two numbers. */
  lemma PlaceholdersInRange(parts: seq<Part>, c: Cond, n: nat)
    ensures c in Conds(parts) ==> 1 <= c.n <= |Args(parts)| && (c.Search? ==> c.m == c.n)
    ensures 1 <= n <= |Args(parts)| ==> exists d :: d in Conds(parts) && d.n == n
  {
    if 1 <= n <= |Args(parts)| {
      var d := Conds(parts)[n - 1];
      assert d in Conds(parts) && d.n == n;
    }
  }

  ghost predicate Full(f: DeviceListFilter) {
    f.deviceType.Some? && f.status.Some? && f.location.Some? && f.tags != [] && f.search.Some? && f.search.value != ""
  }

  lemma FullFilterParts(f: DeviceListFilter)
    requires Full(f)
    ensures Parts(f) == [EqPart("device_type", Text(f.deviceType.value)), EqPart("status", Text(f.status.value)),
                         EqPart("location", Text(f.location.value)), OverlapsPart("tags", Texts(f.tags)),
                         SearchPart(Text("%" + f.search.value + "%"))]
  {}

  /** The arguments for any filter with every field. */
  lemma FullFilterArgs(f: DeviceListFilter)
    requires Full(f)
    ensures Args(Parts(f)) == [Text(f.deviceType.value), Text(f.status.value), Text(f.location.value), Texts(f.tags),
                               Text("%" + f.search.value + "%")]
  {
    FullFilterParts(f);
  }

  lemma Pieces(parts: seq<Part>)
    requires |parts| == 5 && parts[0].EqPart? && parts[1].EqPart? && parts[2].EqPart? && parts[3].OverlapsPart? && parts[4].SearchPart?
    ensures Rendered(Conds(parts)) == [parts[0].column + " = $" + "1", parts[1].column + " = $" + "2", parts[2].column + " = $" + "3",
              parts[3].column + " && $" + "4", "(hostname ILIKE $" + "5" + " OR ip_address::text ILIKE $" + "5" + ")"]
  {
    SmallNumbers();
  }

  /** The WHERE text for any filter with every field, piece by piece as written. */
  lemma FullFilterText(f: DeviceListFilter)
    requires Full(f)
    ensures WhereText(Rendered(Conds(Parts(f)))) == "WHERE " +
              ("device_type" + " = $" + "1" + " AND " + ("status" + " = $" + "2" + " AND " + ("location" + " = $" + "3"
                + " AND " + ("tags" + " && $" + "4" + " AND "
                + ("(hostname ILIKE $" + "5" + " OR ip_address::text ILIKE $" + "5" + ")")))))
  {
    FullFilterParts(f);
    Pieces(Parts(f));
    JoinFive(Rendered(Conds(Parts(f))), AND);
  }

  lemma SmallNumbers()
    ensures Itoa(1) == "1" && Itoa(2) == "2" && Itoa(3) == "3" && Itoa(4) == "4" && Itoa(5) == "5"
  {}

  lemma JoinFive(parts: seq<string>, sep: string)
    requires |parts| == 5
    ensures Strings.Join(parts, sep) == parts[0] + sep + (parts[1] + sep + (parts[2] + sep + (parts[3] + sep + parts[4])))
  {
    assert Strings.Join(parts[1..][1..][1..][1..], sep) == parts[4];
    assert Strings.Join(parts[1..][1..][1..], sep) == parts[3] + sep + parts[4];
    assert Strings.Join(parts[1..][1..], sep) == parts[2] + sep + (parts[3] + sep + parts[4]);
  }

  /** The two queries of List: the count, and one page. The fixed text around the WHERE clause is not repeated here. */
  datatype Queries = Queries(
    whereClause: string, countArgs: seq<Value>, pageArgs: seq<Value>, limitAt: nat, offsetAt: nat)

  function ClampedPage(page: int): (p: int)
    ensures page >= 1 ==> p == page
    ensures page < 1 ==> p == 1
  {
    if page < 1 then 1 else page
  }

  function ClampedSize(size: int): (s: int)
    ensures 1 <= s <= 100
    ensures 1 <= size <= 100 ==> s == size
    ensures size < 1 ==> s == 20
    ensures size > 100 ==> s == 100
  {
    var s := if size < 1 then 20 else size;
    if s > 100 then 100 else s
  }

  /** The last two arguments of the page query. */
  function LimitOf(f: DeviceListFilter): nat {
    ClampedSize(f.pageSize)
  }

  function OffsetOf(f: DeviceListFilter): nat {
    (ClampedPage(f.page) - 1) * ClampedSize(f.pageSize)
  }

  lemma BuiltMeansFilter(f: DeviceListFilter, parts: seq<Part>, q: Queries)
    requires parts == Parts(f) && q.whereClause == WhereText(Rendered(Conds(parts)))
    requires q.countArgs == Args(parts) && q.countArgs <= q.pageArgs
    ensures forall row: Row, like: Like ::
              && EvalWhere(q.whereClause, q.countArgs, row, like) == Some(Matches(f, row, like))
              && EvalWhere(q.whereClause, q.pageArgs, row, like) == Some(Matches(f, row, like))
  {
    var more := q.pageArgs[|q.countArgs|..];
    assert q.countArgs + [] == q.countArgs && q.countArgs + more == q.pageArgs;
    forall row: Row, like: Like
      ensures EvalWhere(q.whereClause, q.countArgs, row, like) == Some(Matches(f, row, like))
      ensures EvalWhere(q.whereClause, q.pageArgs, row, like) == Some(Matches(f, row, like))
    {
      WhereMeansFilter(f, [], row, like);
      WhereMeansFilter(f, more, row, like);
    }
  }

  /**
   * Builds both queries. Each text with its arguments selects exactly the rows the filter means; LIMIT and OFFSET are
   * the last two arguments, the clamped size and the start of the clamped page.
   */
  method BuildList(f: DeviceListFilter) returns (q: Queries)
    ensures forall row: Row, like: Like ::
              && EvalWhere(q.whereClause, q.countArgs, row, like) == Some(Matches(f, row, like))
              && EvalWhere(q.whereClause, q.pageArgs, row, like) == Some(Matches(f, row, like))
    ensures q.whereClause == WhereText(Rendered(Conds(Parts(f)))) && q.countArgs == Args(Parts(f))
    ensures q.pageArgs == q.countArgs + [Int(LimitOf(f)), Int(OffsetOf(f))]
    ensures q.limitAt == |q.pageArgs| - 1 && q.offsetAt == |q.pageArgs|
  {
    var b := new Builder();
    b.AddEqual("device_type", f.deviceType);
    assert b.parts == EqParts("device_type", f.deviceType);
    b.AddEqual("status", f.status);
    b.AddEqual("location", f.location);
    b.AddTags(f.tags);
    b.AddSearch(f.search);

    var whereClause := "";
    if |b.clauses| > 0 {
      whereClause := "WHERE " + Strings.Join(b.clauses, " AND ");
    }

    var page, pageSize := f.page, f.pageSize;
    if page < 1 {
      page := 1;
    }
    if pageSize < 1 {
      pageSize := 20;
    }
    if pageSize > 100 {
      pageSize := 100;
    }
    var offset := (page - 1) * pageSize;
    q := Queries(whereClause, b.args, b.args + [Int(pageSize), Int(offset)], b.argPos, b.argPos + 1);
    BuiltMeansFilter(f, b.parts, q);
  }
}
