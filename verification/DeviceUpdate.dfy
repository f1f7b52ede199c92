/**
 * The UPDATE builder (DeviceRepository.Update, backend/internal/db/device_repository.go) against what a patch means.
 */
module DeviceUpdate {
  import opened Common
  import opened SqlText
  import Strings
  import opened DeviceList

  /** Absent fields are None; a present list of tags may be empty. */
  datatype Patch = Patch(
    hostname: Option<string>, ipAddress: Option<string>, bmcIpAddress: Option<string>, deviceType: Option<string>,
    vendor: Option<string>, managementController: Option<string>, protocol: Option<string>,
    pollingInterval: Option<int>, sslVerify: Option<bool>, location: Option<string>,
    tags: Option<seq<string>>, status: Option<string>)

  datatype Column =
    | UpdatedAt | Hostname | IpAddress | BmcIpAddress | DeviceType | Vendor | ManagementController
    | Protocol | PollingInterval | SslVerify | Location | Tags | Status

  function Name(c: Column): string {
    match c
    case UpdatedAt => "updated_at"
    case Hostname => "hostname"
    case IpAddress => "ip_address"
    case BmcIpAddress => "bmc_ip_address"
    case DeviceType => "device_type"
    case Vendor => "vendor"
    case ManagementController => "management_controller"
    case Protocol => "protocol"
    case PollingInterval => "polling_interval"
    case SslVerify => "ssl_verify"
    case Location => "location"
    case Tags => "tags"
    case Status => "status"
  }

  /** The position of a column in the builder's order. */
  function Rank(c: Column): nat {
    match c
    case UpdatedAt => 0
    case Hostname => 1
    case IpAddress => 2
    case BmcIpAddress => 3
    case DeviceType => 4
    case Vendor => 5
    case ManagementController => 6
    case Protocol => 7
    case PollingInterval => 8
    case SslVerify => 9
    case Location => 10
    case Tags => 11
    case Status => 12
  }

  // --- What a patch means ---

  function OptText(s: Option<string>): Option<Value> {
    if s.Some? then Some(Text(s.value)) else None
  }

  /** The value a patch asks for in a column, if it names the column at all. */
  function Requested(p: Patch, now: int, c: Column): Option<Value> {
    match c
    case UpdatedAt => Some(Time(now))
    case Hostname => OptText(p.hostname)
    case IpAddress => OptText(p.ipAddress)
    case BmcIpAddress => OptText(p.bmcIpAddress)
    case DeviceType => OptText(p.deviceType)
    case Vendor => OptText(p.vendor)
    case ManagementController => OptText(p.managementController)
    case Protocol => OptText(p.protocol)
    case PollingInterval => if p.pollingInterval.Some? then Some(Int(p.pollingInterval.value)) else None
    case SslVerify => if p.sslVerify.Some? then Some(Bool(p.sslVerify.value)) else None
    case Location => OptText(p.location)
    case Tags => if p.tags.Some? then Some(Texts(p.tags.value)) else None
    case Status => OptText(p.status)
  }

  /** `after` is `before` with every named column replaced, and nothing else. */
  ghost predicate PatchedRow(p: Patch, now: int, before: Row, after: Row) {
    && (forall c: Column :: Get(after, Name(c)) ==
          if Requested(p, now, c).Some? then Requested(p, now, c).value else Get(before, Name(c)))
    && (forall key: string :: (forall c: Column :: Name(c) != key) ==> Get(after, key) == Get(before, key))
  }

  ghost predicate PatchedTable(p: Patch, now: int, id: string, before: seq<Row>, after: seq<Row>) {
    && |after| == |before|
    && forall i :: 0 <= i < |before| ==>
         if Get(before[i], "id") == Text(id) then PatchedRow(p, now, before[i], after[i]) else after[i] == before[i]
  }

  /** Exactly the rows with the id are patched. */
  lemma TableMeans(p: Patch, now: int, id: string, before: seq<Row>, after: seq<Row>, i: nat)
    requires PatchedTable(p, now, id, before, after) && i < |before|
    ensures |after| == |before|
    ensures if "id" in before[i] && before[i]["id"] == Text(id) then PatchedRow(p, now, before[i], after[i]) else after[i] == before[i]
  {
    assert Get(before[i], "id") == Text(id) <==> "id" in before[i] && before[i]["id"] == Text(id);
  }

  lemma OneColumn(p: Patch, now: int, before: Row, after: Row, c: Column)
    requires PatchedRow(p, now, before, after)
    ensures Get(after, Name(c)) == if Requested(p, now, c).Some? then Requested(p, now, c).value else Get(before, Name(c))
  {}

  /** Each identity field of a patch goes to its own column; a column whose field is absent keeps its value. */
  lemma IdentityMeans(p: Patch, now: int, before: Row, after: Row)
    requires PatchedRow(p, now, before, after)
    ensures Get(after, "updated_at") == Time(now)
    ensures Get(after, "hostname") == if p.hostname.Some? then Text(p.hostname.value) else Get(before, "hostname")
    ensures Get(after, "ip_address") == if p.ipAddress.Some? then Text(p.ipAddress.value) else Get(before, "ip_address")
    ensures Get(after, "bmc_ip_address") == if p.bmcIpAddress.Some? then Text(p.bmcIpAddress.value) else Get(before, "bmc_ip_address")
    ensures Get(after, "device_type") == if p.deviceType.Some? then Text(p.deviceType.value) else Get(before, "device_type")
    ensures Get(after, "vendor") == if p.vendor.Some? then Text(p.vendor.value) else Get(before, "vendor")
    ensures Get(after, "management_controller")
         == if p.managementController.Some? then Text(p.managementController.value) else Get(before, "management_controller")
  {
    OneColumn(p, now, before, after, UpdatedAt);
    OneColumn(p, now, before, after, Hostname);
    OneColumn(p, now, before, after, IpAddress);
    OneColumn(p, now, before, after, BmcIpAddress);
    OneColumn(p, now, before, after, DeviceType);
    OneColumn(p, now, before, after, Vendor);
    OneColumn(p, now, before, after, ManagementController);
  }

  /** The same for the settings. */
  lemma SettingsMean(p: Patch, now: int, before: Row, after: Row)
    requires PatchedRow(p, now, before, after)
    ensures Get(after, "protocol") == if p.protocol.Some? then Text(p.protocol.value) else Get(before, "protocol")
    ensures Get(after, "polling_interval")
         == if p.pollingInterval.Some? then Int(p.pollingInterval.value) else Get(before, "polling_interval")
    ensures Get(after, "ssl_verify") == if p.sslVerify.Some? then Bool(p.sslVerify.value) else Get(before, "ssl_verify")
    ensures Get(after, "location") == if p.location.Some? then Text(p.location.value) else Get(before, "location")
    ensures Get(after, "tags") == if p.tags.Some? then Texts(p.tags.value) else Get(before, "tags")
    ensures Get(after, "status") == if p.status.Some? then Text(p.status.value) else Get(before, "status")
  {
    OneColumn(p, now, before, after, Protocol);
    OneColumn(p, now, before, after, PollingInterval);
    OneColumn(p, now, before, after, SslVerify);
    OneColumn(p, now, before, after, Location);
    OneColumn(p, now, before, after, Tags);
    OneColumn(p, now, before, after, Status);
  }

  // --- What the database does with the text ---

  ghost predicate AllInRange(sets: seq<(string, nat)>, args: seq<Value>) {
    forall i :: 0 <= i < |sets| ==> InRange(sets[i].1, args)
  }

  function Assign(row: Row, sets: seq<(string, nat)>, args: seq<Value>): Row
    requires AllInRange(sets, args)
    decreases |sets|
  {
    if sets == [] then row else
      assert InRange(sets[0].1, args);
      Assign(row[sets[0].0 := args[sets[0].1 - 1]], sets[1..], args)
  }

  ghost predicate DistinctColumns(sets: seq<(string, nat)>) {
    forall i, j :: 0 <= i < j < |sets| ==> sets[i].0 != sets[j].0
  }

  /** UPDATE devices SET ... WHERE id = $n: an unreadable list, a missing argument or a column set twice is an error. */
  ghost function ExecUpdate(setText: string, whereAt: nat, args: seq<Value>, table: seq<Row>): Option<seq<Row>> {
    match ReadSets(setText)
    case None => None
    case Some(sets) =>
      if InRange(whereAt, args) && AllInRange(sets, args) && DistinctColumns(sets)
      then Some(seq(|table|, i requires 0 <= i < |table| =>
                  if Get(table[i], "id") == args[whereAt - 1] then Assign(table[i], sets, args) else table[i]))
      else None
  }

  // --- The builder ---

  /** A column with its new value. */
  datatype Item = Item(column: Column, value: Value)

  function Items(c: Column, v: Option<Value>): seq<Item> {
    if v.Some? then [Item(c, v.value)] else []
  }

  function Sets(items: seq<Item>): seq<(string, nat)> {
    seq(|items|, i requires 0 <= i < |items| => (Name(items[i].column), i + 1))
  }

  function Values(items: seq<Item>): seq<Value> {
    seq(|items|, i requires 0 <= i < |items| => items[i].value)
  }

  /** The items are the requests of the patch for the columns of rank below `k`, in rank order. */
  ghost predicate Lists(items: seq<Item>, p: Patch, now: int, k: nat) {
    && (forall i, j :: 0 <= i < j < |items| ==> Rank(items[i].column) < Rank(items[j].column))
    && (forall it :: it in items <==> Rank(it.column) < k && Requested(p, now, it.column) == Some(it.value))
  }

  lemma ListsNext(items: seq<Item>, p: Patch, now: int, c: Column)
    requires Lists(items, p, now, Rank(c))
    ensures Lists(items + Items(c, Requested(p, now, c)), p, now, Rank(c) + 1)
  {
    var items' := items + Items(c, Requested(p, now, c));
    assert forall i :: 0 <= i < |items| ==> items[i] in items && items'[i] == items[i];
    forall it ensures it in items' <==> Rank(it.column) < Rank(c) + 1 && Requested(p, now, it.column) == Some(it.value) {
      assert it in items' <==> it in items || it in Items(c, Requested(p, now, c));
      assert Rank(it.column) == Rank(c) ==> it.column == c;
    }
  }

  /** The three variables of the builder; `items` and `next` say which columns have been dealt with. */
  class Builder {
    var clauses: seq<string>
    var args: seq<Value>
    var argPos: nat
    ghost var items: seq<Item>
    ghost var next: nat
    ghost const patch: Patch
    ghost const now: int

    ghost predicate Valid()
      reads this
    {
      && clauses == RenderedSets(Sets(items)) && args == Values(items) && argPos == |items| + 1
      && items != [] && Lists(items, patch, now, next)
    }

    constructor (ghost patch: Patch, now: int)
      ensures Valid() && next == 1 && this.patch == patch && this.now == now
    {
      clauses, args, argPos := ["updated_at = $1"], [Time(now)], 2;
      items, next := [Item(UpdatedAt, Time(now))], 1;
      this.patch, this.now := patch, now;
      new;
      FirstClause(now);
      assert forall c: Column :: Rank(c) == 0 ==> c == UpdatedAt;
    }

    /** The block for one optional column. */
    method Add(column: Column, value: Option<Value>)
      requires Valid() && Rank(column) == next && value == Requested(patch, now, column)
      modifies this
      ensures Valid() && next == old(next) + 1
    {
      ListsNext(items, patch, now, column);
      if value.Some? {
        ghost var item := Item(column, value.value);
        assert Sets(items + [item]) == Sets(items) + [(Name(column), argPos)];
        assert RenderedSets(Sets(items + [item])) == RenderedSets(Sets(items)) + [Render(Eq(Name(column), argPos))];
        assert Values(items + [item]) == Values(items) + [value.value];
        clauses := clauses + [Name(column) + " = $" + Itoa(argPos)];
        args := args + [value.value];
        argPos := argPos + 1;
        items := items + [item];
      } else {
        assert items + Items(column, value) == items;
      }
      next := next + 1;
    }

    method AddIdentity(p: Patch)
      requires Valid() && patch == p && next == 1
      modifies this
      ensures Valid() && next == 7
    {
      Add(Hostname, OptText(p.hostname));
      Add(IpAddress, OptText(p.ipAddress));
      Add(BmcIpAddress, OptText(p.bmcIpAddress));
      Add(DeviceType, OptText(p.deviceType));
      Add(Vendor, OptText(p.vendor));
      Add(ManagementController, OptText(p.managementController));
    }

    method AddSettings(p: Patch)
      requires Valid() && patch == p && next == 7
      modifies this
      ensures Valid() && next == 13
    {
      Add(Protocol, OptText(p.protocol));
      Add(PollingInterval, if p.pollingInterval.Some? then Some(Int(p.pollingInterval.value)) else None);
      Add(SslVerify, if p.sslVerify.Some? then Some(Bool(p.sslVerify.value)) else None);
      Add(Location, OptText(p.location));
      Add(Tags, if p.tags.Some? then Some(Texts(p.tags.value)) else None);
      Add(Status, OptText(p.status));
    }
  }

  lemma FirstClause(now: int)
    ensures RenderedSets(Sets([Item(UpdatedAt, Time(now))])) == ["updated_at = $1"]
    ensures Values([Item(UpdatedAt, Time(now))]) == [Time(now)]
  {
    var items := [Item(UpdatedAt, Time(now))];
    assert Sets(items) == [("updated_at", 1)];
    assert RenderedSets([("updated_at", 1)]) == [Render(Eq("updated_at", 1))];
    assert Itoa(1) == "1";
    assert "updated_at" + " = $" + "1" == "updated_at = $1";
  }

  /** The i-th piece of the SET text, as written. */
  lemma SetPiece(items: seq<Item>, i: nat)
    requires i < |items|
    ensures RenderedSets(Sets(items))[i] == Name(items[i].column) + " = $" + Itoa(i + 1)
    ensures Values(items)[i] == items[i].value
  {}

  // --- The text means the patch ---

  lemma NameIsName(c: Column)
    ensures Name(c) != "" && IsName(Name(c))
  {}

  lemma Signature(c: Column)
    ensures |Name(c)| == match c {
      case UpdatedAt => 10 case Hostname => 8 case IpAddress => 10 case BmcIpAddress => 14 case DeviceType => 11
      case Vendor => 6 case ManagementController => 21 case Protocol => 8 case PollingInterval => 16
      case SslVerify => 10 case Location => 8 case Tags => 4 case Status => 6 }
    ensures Name(c)[0] == match c {
      case UpdatedAt => 'u' case Hostname => 'h' case IpAddress => 'i' case BmcIpAddress => 'b' case DeviceType => 'd'
      case Vendor => 'v' case ManagementController => 'm' case Protocol => 'p' case PollingInterval => 'p'
      case SslVerify => 's' case Location => 'l' case Tags => 't' case Status => 's' }
  {}

  lemma NamesDiffer(c: Column, d: Column)
    ensures Name(c) == Name(d) ==> c == d
  {
    Signature(c);
    Signature(d);
  }

  ghost predicate DistinctItems(items: seq<Item>) {
    forall i, j :: 0 <= i < j < |items| ==> items[i].column != items[j].column
  }

  /** A key that is not assigned keeps its value. */
  lemma {:induction false} AssignElsewhere(row: Row, sets: seq<(string, nat)>, args: seq<Value>, key: string)
    requires AllInRange(sets, args) && forall i :: 0 <= i < |sets| ==> sets[i].0 != key
    ensures Get(Assign(row, sets, args), key) == Get(row, key)
    decreases |sets|
  {
    if sets == [] {
    } else {
      assert InRange(sets[0].1, args);
      AssignElsewhere(row[sets[0].0 := args[sets[0].1 - 1]], sets[1..], args, key);
    }
  }

  /** An assigned column gets its own argument. */
  lemma {:induction false} AssignHits(row: Row, sets: seq<(string, nat)>, args: seq<Value>, j: nat)
    requires AllInRange(sets, args) && DistinctColumns(sets) && j < |sets|
    ensures Get(Assign(row, sets, args), sets[j].0) == args[sets[j].1 - 1]
    decreases |sets|
  {
    assert InRange(sets[0].1, args);
    var row' := row[sets[0].0 := args[sets[0].1 - 1]];
    if j == 0 {
      AssignElsewhere(row', sets[1..], args, sets[0].0);
    } else {
      AssignHits(row', sets[1..], args, j - 1);
    }
  }

  lemma SetsAreDistinct(items: seq<Item>, args: seq<Value>)
    requires DistinctItems(items) && Values(items) <= args
    ensures DistinctColumns(Sets(items)) && AllInRange(Sets(items), args)
  {
    forall i, j | 0 <= i < j < |items| ensures Sets(items)[i].0 != Sets(items)[j].0 {
      NamesDiffer(items[i].column, items[j].column);
    }
  }

  lemma ColumnIsPatched(items: seq<Item>, p: Patch, now: int, args: seq<Value>, row: Row, c: Column)
    requires Lists(items, p, now, 13) && Values(items) <= args && AllInRange(Sets(items), args)
    ensures Get(Assign(row, Sets(items), args), Name(c))
         == if Requested(p, now, c).Some? then Requested(p, now, c).value else Get(row, Name(c))
  {
    var r := Requested(p, now, c);
    if r.Some? {
      assert Item(c, r.value) in items;
      var j :| 0 <= j < |items| && items[j] == Item(c, r.value);
      SetsAreDistinct(items, args);
      AssignHits(row, Sets(items), args, j);
      assert Values(items)[j] == args[j];
    } else {
      forall i | 0 <= i < |items| ensures Sets(items)[i].0 != Name(c) {
        assert items[i] in items;
        NamesDiffer(items[i].column, c);
      }
      AssignElsewhere(row, Sets(items), args, Name(c));
    }
  }

  lemma RowIsPatched(items: seq<Item>, p: Patch, now: int, args: seq<Value>, row: Row)
    requires Lists(items, p, now, 13) && Values(items) <= args && AllInRange(Sets(items), args)
    ensures PatchedRow(p, now, row, Assign(row, Sets(items), args))
  {
    var after := Assign(row, Sets(items), args);
    forall c: Column
      ensures Get(after, Name(c)) == if Requested(p, now, c).Some? then Requested(p, now, c).value else Get(row, Name(c))
    {
      ColumnIsPatched(items, p, now, args, row, c);
    }
    forall key: string | forall c: Column :: Name(c) != key ensures Get(after, key) == Get(row, key) {
      AssignElsewhere(row, Sets(items), args, key);
    }
  }

  lemma UpdateMeansPatch(items: seq<Item>, p: Patch, now: int, id: string, table: seq<Row>)
    requires items != [] && Lists(items, p, now, 13)
    ensures var args := Values(items) + [Text(id)];
            var result := ExecUpdate(Strings.Join(RenderedSets(Sets(items)), ", "), |args|, args, table);
            result.Some? && PatchedTable(p, now, id, table, result.value)
  {
    var sets, args := Sets(items), Values(items) + [Text(id)];
    forall i | 0 <= i < |sets| ensures sets[i].0 != "" && IsName(sets[i].0) { NameIsName(items[i].column); }
    ReadSetText(sets);
    SetsAreDistinct(items, args);
    assert args[|args| - 1] == Text(id);
    forall i | 0 <= i < |table| ensures PatchedRow(p, now, table[i], Assign(table[i], sets, args)) {
      RowIsPatched(items, p, now, args, table[i]);
    }
  }

  /**
   * Builds the UPDATE. On every table its text and arguments change the rows with the given id as the patch says,
   * column by column, and touch nothing else; the id is always the last argument.
   */
  method BuildUpdate(p: Patch, id: string, now: int) returns (setText: string, args: seq<Value>, whereAt: nat)
    ensures whereAt == |args| > 0 && args[|args| - 1] == Text(id)
    ensures exists items :: Lists(items, p, now, 13) && setText == Strings.Join(RenderedSets(Sets(items)), ", ") && args == Values(items) + [Text(id)]
    ensures forall table: seq<Row> ::
              && ExecUpdate(setText, whereAt, args, table).Some?
              && PatchedTable(p, now, id, table, ExecUpdate(setText, whereAt, args, table).value)
  {
    var b := new Builder(p, now);
    b.AddIdentity(p);
    b.AddSettings(p);
    setText, args, whereAt := Strings.Join(b.clauses, ", "), b.args + [Text(id)], b.argPos;
    forall table: seq<Row> { UpdateMeansPatch(b.items, p, now, id, table); }
  }
}
