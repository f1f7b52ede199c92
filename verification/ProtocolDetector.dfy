/**
 * The protocol detector (backend/internal/services/protocol_detector.go): six probes run at once, their results are
 * collected from a channel in whatever order they arrive, and a protocol is recommended. Lower-casing is given by the caller.
 */
module ProtocolDetector {
  import opened Common
  import opened Strings

  datatype ProbeOutput = ProbeOutput(available: bool, error: string, vendor: string, model: string, bmcType: string)

  datatype ProbeResult = ProbeResult(protocol: string, available: bool, port: int, error: string)

  datatype Detection = Detection(
    vendor: string, model: string, bmcType: string, supported: seq<string>, recommended: string, probes: seq<ProbeResult>)

  /** The probes in the order in which they are listed, with their ports. */
  const PROBES: seq<(string, int)> :=
    [("redfish", 443), ("ipmi", 623), ("snmp", 161), ("ssh", 22), ("wsman", 5989), ("kvm", 5900)]

  const PRIORITY: seq<string> := ["redfish", "snmp", "ipmi", "ssh"]

  /** One result per probe, each exactly once, in order of arrival. */
  ghost predicate IsArrival(order: seq<nat>, n: nat) {
    && |order| == n
    && (forall k :: 0 <= k < n ==> order[k] < n)
    && (forall j, k :: 0 <= j < k < n ==> order[j] != order[k])
  }

  function ResultOf(i: nat, out: ProbeOutput): ProbeResult
    requires i < |PROBES|
  {
    ProbeResult(PROBES[i].0, out.available, PROBES[i].1, out.error)
  }

  /** The probe results in listing order. */
  function Results(outs: seq<ProbeOutput>): seq<ProbeResult>
    requires |outs| == |PROBES|
  {
    seq(|outs|, i requires 0 <= i < |outs| => ResultOf(i, outs[i]))
  }

  predicate Offers(probes: seq<ProbeResult>, protocol: string) {
    exists i :: 0 <= i < |probes| && probes[i].protocol == protocol && probes[i].available
  }

  /** `best` is the first protocol of the priority list that some probe offers, or "unknown". */
  ghost predicate IsRecommended(probes: seq<ProbeResult>, best: string) {
    || (exists p :: 0 <= p < |PRIORITY| && best == PRIORITY[p] && Offers(probes, best)
          && forall q :: 0 <= q < p ==> !Offers(probes, PRIORITY[q]))
    || (best == "unknown" && forall q :: 0 <= q < |PRIORITY| ==> !Offers(probes, PRIORITY[q]))
  }

  /** The probe list: names, ports, and each probe's own availability and error. */
  lemma ProbeTable(outs: seq<ProbeOutput>, i: nat)
    requires |outs| == 6 && i < 6
    ensures var r := Results(outs)[i];
            && r.protocol == ["redfish", "ipmi", "snmp", "ssh", "wsman", "kvm"][i] && r.port == [443, 623, 161, 22, 5989, 5900][i]
            && r.available == outs[i].available && r.error == outs[i].error
  {}

  /** The recommendation, protocol by protocol. */
  lemma RecommendedIs(probes: seq<ProbeResult>, best: string)
    ensures IsRecommended(probes, best) <==>
              best == if Offers(probes, "redfish") then "redfish" else if Offers(probes, "snmp") then "snmp"
                      else if Offers(probes, "ipmi") then "ipmi" else if Offers(probes, "ssh") then "ssh" else "unknown"
  {
    assert PRIORITY[0] == "redfish" && PRIORITY[1] == "snmp" && PRIORITY[2] == "ipmi" && PRIORITY[3] == "ssh" && |PRIORITY| == 4;
  }

  /** The first report that is not empty, in order of arrival. */
  function FirstReport(reports: seq<string>, order: seq<nat>): string
    requires forall k :: 0 <= k < |order| ==> order[k] < |reports|
  {
    if order == [] then ""
    else if reports[order[0]] != "" then reports[order[0]]
    else FirstReport(reports, order[1..])
  }

  function Vendors(outs: seq<ProbeOutput>): seq<string> {
    seq(|outs|, i requires 0 <= i < |outs| => outs[i].vendor)
  }

  function Models(outs: seq<ProbeOutput>): seq<string> {
    seq(|outs|, i requires 0 <= i < |outs| => outs[i].model)
  }

  function BmcTypes(outs: seq<ProbeOutput>): seq<string> {
    seq(|outs|, i requires 0 <= i < |outs| => outs[i].bmcType)
  }

  lemma {:induction false} FirstReportAppend(reports: seq<string>, order: seq<nat>, i: nat)
    requires i < |reports| && forall k :: 0 <= k < |order| ==> order[k] < |reports|
    ensures FirstReport(reports, order + [i]) == if FirstReport(reports, order) != "" then FirstReport(reports, order) else reports[i]
  {
    if order == [] {
      assert [] + [i] == [i] && [i][1..] == [];
    } else {
      FirstReportAppend(reports, order[1..], i);
      assert (order + [i])[1..] == order[1..] + [i];
    }
  }

  // --- Order of arrival ---

  ghost predicate Agree(reports: seq<string>) {
    forall i, j :: 0 <= i < |reports| && 0 <= j < |reports| && reports[i] != "" && reports[j] != "" ==> reports[i] == reports[j]
  }

  lemma {:induction false} FirstReportIsSome(reports: seq<string>, order: seq<nat>)
    requires forall k :: 0 <= k < |order| ==> order[k] < |reports|
    ensures var r := FirstReport(reports, order);
            if r == "" then forall k :: 0 <= k < |order| ==> reports[order[k]] == ""
            else exists k :: 0 <= k < |order| && reports[order[k]] == r && forall j :: 0 <= j < k ==> reports[order[j]] == ""
  {
    if order != [] && reports[order[0]] == "" {
      var rest := order[1..];
      FirstReportIsSome(reports, rest);
      if FirstReport(reports, rest) != "" {
        var k :| 0 <= k < |rest| && reports[rest[k]] == FirstReport(reports, rest)
          && forall j :: 0 <= j < k ==> reports[rest[j]] == "";
        assert order[k + 1] == rest[k];
        assert forall j :: 1 <= j < k + 1 ==> order[j] == rest[j - 1];
      } else {
        assert forall k :: 1 <= k < |order| ==> order[k] == rest[k - 1];
      }
    }
  }

  /** The first `n` to arrive. */
  ghost function Seen(order: seq<nat>, n: nat): set<nat>
    requires n <= |order|
  {
    if n == 0 then {} else Seen(order, n - 1) + {order[n - 1]}
  }

  lemma {:induction false} NotSeen(order: seq<nat>, n: nat, i: nat)
    requires n <= |order| && forall k :: 0 <= k < n ==> order[k] != i
    ensures i !in Seen(order, n)
  {
    if n == 0 {
    } else {
      NotSeen(order, n - 1, i);
    }
  }

  lemma {:induction false} SeenCount(order: seq<nat>, n: nat, bound: nat)
    requires n <= |order| && forall j, k :: 0 <= j < k < n ==> order[j] != order[k]
    requires forall k :: 0 <= k < n ==> order[k] < bound
    ensures |Seen(order, n)| == n && Seen(order, n) <= UpTo(bound)
  {
    if n == 0 {
    } else {
      SeenCount(order, n - 1, bound);
      NotSeen(order, n - 1, order[n - 1]);
    }
  }

  /** Every probe is somewhere in the order of arrival. */
  lemma ArrivalCovers(order: seq<nat>, n: nat, i: nat)
    requires IsArrival(order, n) && i < n
    ensures exists k :: 0 <= k < n && order[k] == i
  {
    SeenCount(order, n, n);
    if forall k :: 0 <= k < n ==> order[k] != i {
      NotSeen(order, n, i);
      SubsetSize(Seen(order, n), UpTo(n) - {i});
    }
  }

  ghost function UpTo(n: nat): (s: set<nat>)
    ensures |s| == n && forall j: nat :: j in s <==> j < n
  {
    if n == 0 then {} else UpTo(n - 1) + {n - 1}
  }

  /** A possible order of arrival that begins with probe `i`. */
  lemma ArrivalFrom(n: nat, i: nat) returns (order: seq<nat>)
    requires i < n
    ensures IsArrival(order, n) && order[0] == i
  {
    var inOrder := seq(n, k requires 0 <= k < n => k as nat);
    order := inOrder[0 := i][i := 0];
  }

  /** The report taken over does not depend on the order of arrival exactly when all probes that report agree. */
  lemma ReportOrderFreeIff(reports: seq<string>)
    ensures (forall o, o' :: IsArrival(o, |reports|) && IsArrival(o', |reports|) ==> FirstReport(reports, o) == FirstReport(reports, o'))
              <==> Agree(reports)
  {
    var n := |reports|;
    if Agree(reports) {
      forall o, o' | IsArrival(o, n) && IsArrival(o', n) ensures FirstReport(reports, o) == FirstReport(reports, o') {
        SameReport(reports, o, o');
      }
    } else {
      var i, j :| 0 <= i < n && 0 <= j < n && reports[i] != "" && reports[j] != "" && reports[i] != reports[j];
      var o := ArrivalFrom(n, i);
      var o' := ArrivalFrom(n, j);
      assert FirstReport(reports, o) != FirstReport(reports, o');
    }
  }

  lemma SameReport(reports: seq<string>, o: seq<nat>, o': seq<nat>)
    requires Agree(reports) && IsArrival(o, |reports|) && IsArrival(o', |reports|)
    ensures FirstReport(reports, o) == FirstReport(reports, o')
  {
    FirstReportIsSome(reports, o);
    FirstReportIsSome(reports, o');
    var r, r' := FirstReport(reports, o), FirstReport(reports, o');
    if r != "" {
      var k :| 0 <= k < |o| && reports[o[k]] == r;
      ArrivalCovers(o', |reports|, o[k]);
    }
    if r' != "" {
      var k :| 0 <= k < |o'| && reports[o'[k]] == r';
      ArrivalCovers(o, |reports|, o'[k]);
    }
  }

  // --- Capabilities ---

  predicate IsManaged(protocol: string) {
    protocol == "redfish" || protocol == "ipmi" || protocol == "snmp" || protocol == "ssh"
  }

  function Available(probes: seq<ProbeResult>): seq<string> {
    if probes == [] then [] else
      var rest := Available(probes[..|probes| - 1]);
      var p := probes[|probes| - 1];
      if p.available && IsManaged(p.protocol) then rest + [p.protocol] else rest
  }

  /** A vendor whose protocols are listed, whatever the probes found. */
  predicate Recognised(vendor: string) {
    || vendor == "dell" || vendor == "hpe" || vendor == "lenovo" || Contains(vendor, "xclarity")
    || vendor == "cisco" || Contains(vendor, "cimc") || vendor == "supermicro"
  }

  /** For a recognised vendor the listed protocols decide, not the probes. */
  predicate ListedForVendor(protocol: string, vendor: string, bmcType: string) {
    || protocol == "ipmi"
    || (protocol == "redfish" && !(vendor == "hpe" && Contains(bmcType, "ilo4")))
    || (protocol == "snmp" && (vendor == "hpe" || (vendor == "dell" && !Contains(bmcType, "idrac7") && !Contains(bmcType, "idrac8"))))
  }

  /** Redfish comes first, except on the oldest Dell controllers. */
  function Preference(vendor: string, bmcType: string): seq<string> {
    if vendor == "dell" && Contains(bmcType, "idrac7") then ["ipmi", "redfish", "snmp"] else ["redfish", "ipmi", "snmp"]
  }

  function Listed(vendor: string, bmcType: string): seq<string> {
    Filter(Preference(vendor, bmcType), p => ListedForVendor(p, vendor, bmcType))
  }

  lemma FilterThree<T>(a: T, b: T, c: T, p: T -> bool)
    ensures Filter([a, b, c], p) == (if p(a) then [a] else []) + (if p(b) then [b] else []) + (if p(c) then [c] else [])
  {
    assert [a][1..] == [] && [b][1..] == [] && [c][1..] == [];
    assert [a, b, c] == [a] + [b] + [c];
    FilterAppend([a] + [b], [c], p);
    FilterAppend([a], [b], p);
  }

  lemma ListedIs(vendor: string, bmcType: string)
    ensures ListedForVendor("redfish", vendor, bmcType) && ListedForVendor("snmp", vendor, bmcType) ==>
              Listed(vendor, bmcType) == Preference(vendor, bmcType)
    ensures ListedForVendor("redfish", vendor, bmcType) && !ListedForVendor("snmp", vendor, bmcType) ==>
              Listed(vendor, bmcType) == Preference(vendor, bmcType)[..2]
    ensures !ListedForVendor("redfish", vendor, bmcType) && ListedForVendor("snmp", vendor, bmcType) ==>
              Listed(vendor, bmcType) == ["ipmi", "snmp"]
  {
    var order := Preference(vendor, bmcType);
    FilterThree(order[0], order[1], order[2], p => ListedForVendor(p, vendor, bmcType));
  }

  /** The table of vendors and controllers. */
  lemma VendorTable(vendor: string, bmcType: string)
    ensures Recognised(vendor)
         == (vendor in {"dell", "hpe", "lenovo", "cisco", "supermicro"} || Contains(vendor, "xclarity") || Contains(vendor, "cimc"))
    ensures Listed(vendor, bmcType) ==
            if vendor == "dell" && Contains(bmcType, "idrac7") then ["ipmi", "redfish"]
            else if vendor == "dell" && Contains(bmcType, "idrac8") then ["redfish", "ipmi"]
            else if vendor == "hpe" && Contains(bmcType, "ilo4") then ["ipmi", "snmp"]
            else if vendor == "dell" || vendor == "hpe" then ["redfish", "ipmi", "snmp"]
            else ["redfish", "ipmi"]
  {
    ListedIs(vendor, bmcType);
  }

  lemma ListedMembers(vendor: string, bmcType: string, protocol: string)
    ensures protocol in Listed(vendor, bmcType) <==> ListedForVendor(protocol, vendor, bmcType)
  {
    FilterMembers(Preference(vendor, bmcType), p => ListedForVendor(p, vendor, bmcType), protocol);
  }

  /** The lists, protocol by protocol and in order: by vendor and controller, or what the probes found. */
  method MapCapabilities(vendor: string, bmcType: string, probes: seq<ProbeResult>, lower: char -> char) returns (supported: seq<string>)
    ensures supported ==
            if Recognised(ToLower(vendor, lower)) then Listed(ToLower(vendor, lower), ToLower(bmcType, lower)) else Available(probes)
  {
    supported := [];
    var vendorLower, bmcLower := ToLower(vendor, lower), ToLower(bmcType, lower);
    ListedIs(vendorLower, bmcLower);
    if vendorLower == "dell" {
      if Contains(bmcLower, "idrac7") {
        supported := supported + ["ipmi", "redfish"];
      } else if Contains(bmcLower, "idrac8") {
        supported := supported + ["redfish", "ipmi"];
      } else if Contains(bmcLower, "idrac9") {
        supported := supported + ["redfish", "ipmi", "snmp"];
      } else {
        supported := supported + ["redfish", "ipmi", "snmp"];
      }
    } else if vendorLower == "hpe" {
      if Contains(bmcLower, "ilo4") {
        supported := supported + ["ipmi", "snmp"];
      } else if Contains(bmcLower, "ilo5") || Contains(bmcLower, "ilo6") {
        supported := supported + ["redfish", "ipmi", "snmp"];
      } else {
        supported := supported + ["redfish", "ipmi", "snmp"];
      }
    } else if vendorLower == "lenovo" || Contains(vendorLower, "xclarity") {
      supported := supported + ["redfish", "ipmi"];
    } else if vendorLower == "cisco" || Contains(vendorLower, "cimc") {
      supported := supported + ["redfish", "ipmi"];
    } else if vendorLower == "supermicro" {
      supported := supported + ["redfish", "ipmi"];
    } else {
      for i := 0 to |probes|
        invariant supported == Available(probes[..i])
      {
        assert probes[..i + 1][..i] == probes[..i];
        if probes[i].available && IsManaged(probes[i].protocol) {
          supported := supported + [probes[i].protocol];
        }
      }
      assert probes[..|probes|] == probes;
    }
  }

  lemma {:induction false} AvailableMembers(probes: seq<ProbeResult>, protocol: string)
    ensures protocol in Available(probes) <==> protocol in {"redfish", "ipmi", "snmp", "ssh"} && Offers(probes, protocol)
    decreases |probes|
  {
    if probes == [] {
    } else {
      var before := probes[..|probes| - 1];
      AvailableMembers(before, protocol);
      if Offers(before, protocol) {
        var i :| 0 <= i < |before| && before[i].protocol == protocol && before[i].available;
        assert probes[i] == before[i];
      }
      if Offers(probes, protocol) {
        var i :| 0 <= i < |probes| && probes[i].protocol == protocol && probes[i].available;
        assert i < |before| ==> before[i] == probes[i];
      }
    }
  }

  /** The fallback list of a detection, in the order of the probe list. */
  lemma AvailableIs(outs: seq<ProbeOutput>)
    requires |outs| == 6
    ensures Available(Results(outs))
         == (if outs[0].available then ["redfish"] else []) + (if outs[1].available then ["ipmi"] else [])
          + (if outs[2].available then ["snmp"] else []) + (if outs[3].available then ["ssh"] else [])
  {
    var rs := Results(outs);
    AvailableStep(rs, 1);
    AvailableStep(rs, 2);
    AvailableStep(rs, 3);
    AvailableStep(rs, 4);
    AvailableStep(rs, 5);
    AvailableStep(rs, 6);
    assert rs[..0] == [] && rs[..6] == rs;
    assert !IsManaged("wsman") && !IsManaged("kvm") by {
      assert |"wsman"| == 5 && |"kvm"| == 3 && "kvm"[0] == 'k';
    }
  }

  lemma AvailableStep(rs: seq<ProbeResult>, n: nat)
    requires 0 < n <= |rs|
    ensures Available(rs[..n])
         == Available(rs[..n - 1]) + (if rs[n - 1].available && IsManaged(rs[n - 1].protocol) then [rs[n - 1].protocol] else [])
  {
    assert rs[..n][..n - 1] == rs[..n - 1];
  }

  // --- Detection ---

  /** The loop over the priority list and, inside, over the probes. */
  method Recommend(probes: seq<ProbeResult>) returns (best: string)
    ensures IsRecommended(probes, best)
  {
    best := "";
    for p := 0 to |PRIORITY|
      invariant best == "" && forall q :: 0 <= q < p ==> !Offers(probes, PRIORITY[q])
    {
      for i := 0 to |probes|
        invariant best == "" && forall j :: 0 <= j < i ==> !(probes[j].protocol == PRIORITY[p] && probes[j].available)
      {
        if probes[i].protocol == PRIORITY[p] && probes[i].available {
          best := PRIORITY[p];
          break;
        }
      }
      if best != "" {
        return;
      }
    }
    best := "unknown";
  }

  /** What the channel loop has gathered once the probes of `order` have answered. */
  ghost predicate Gathered(outs: seq<ProbeOutput>, order: seq<nat>, vendor: string, model: string, bmcType: string)
    requires forall k :: 0 <= k < |order| ==> order[k] < |outs|
  {
    && vendor == FirstReport(Vendors(outs), order)
    && model == FirstReport(Models(outs), order)
    && bmcType == FirstReport(BmcTypes(outs), order)
  }

  lemma GatheredAppend(outs: seq<ProbeOutput>, order: seq<nat>, i: nat, vendor: string, model: string, bmcType: string)
    requires i < |outs| && forall k :: 0 <= k < |order| ==> order[k] < |outs|
    requires Gathered(outs, order, vendor, model, bmcType)
    ensures Gathered(outs, order + [i],
              if vendor == "" then outs[i].vendor else vendor,
              if model == "" then outs[i].model else model,
              if bmcType == "" then outs[i].bmcType else bmcType)
  {
    FirstReportAppend(Vendors(outs), order, i);
    FirstReportAppend(Models(outs), order, i);
    FirstReportAppend(BmcTypes(outs), order, i);
  }

  /** The channel loop: every result goes to its own place, and the first report of each kind is kept. */
  method Collect(outs: seq<ProbeOutput>, arrival: seq<nat>)
    returns (probes: seq<ProbeResult>, vendor: string, model: string, bmcType: string)
    requires |outs| == |PROBES| && IsArrival(arrival, |PROBES|)
    ensures probes == Results(outs) && Gathered(outs, arrival, vendor, model, bmcType)
  {
    var results := new ProbeResult[|PROBES|](_ => ProbeResult("", false, 0, ""));
    vendor, model, bmcType := "", "", "";
    for k := 0 to |arrival|
      invariant forall j :: 0 <= j < k ==> results[arrival[j]] == ResultOf(arrival[j], outs[arrival[j]])
      invariant Gathered(outs, arrival[..k], vendor, model, bmcType)
    {
      var i := arrival[k];
      var out := outs[i];
      assert arrival[..k + 1] == arrival[..k] + [i];
      GatheredAppend(outs, arrival[..k], i, vendor, model, bmcType);
      results[i] := ResultOf(i, out);
      if out.vendor != "" && vendor == "" {
        vendor := out.vendor;
      }
      if out.model != "" && model == "" {
        model := out.model;
      }
      if out.bmcType != "" && bmcType == "" {
        bmcType := out.bmcType;
      }
    }
    assert arrival[..|arrival|] == arrival;
    forall i: nat | i < |PROBES| ensures results[i] == ResultOf(i, outs[i]) {
      ArrivalCovers(arrival, |PROBES|, i);
    }
    probes := results[..];
  }

  /**
   * Detect with the probes' outputs and their order of arrival given. The probe list and the recommendation are the
   * same for every order; vendor, model and type are the first ones reported. The recommended protocol is among the
   * supported ones exactly when there is one, for a vendor that is not recognised, and exactly when the vendor's list
   * names it, for one that is.
   */
  method Detect(outs: seq<ProbeOutput>, arrival: seq<nat>, lower: char -> char) returns (d: Detection)
    requires |outs| == |PROBES| && IsArrival(arrival, |PROBES|)
    ensures d.probes == Results(outs) && IsRecommended(Results(outs), d.recommended)
    ensures Gathered(outs, arrival, d.vendor, d.model, d.bmcType)
    ensures d.recommended in d.supported <==>
              if Recognised(ToLower(d.vendor, lower))
              then ListedForVendor(d.recommended, ToLower(d.vendor, lower), ToLower(d.bmcType, lower))
              else d.recommended != "unknown"
  {
    var probes, vendor, model, bmcType := Collect(outs, arrival);
    var best := Recommend(probes);
    var supported := MapCapabilities(vendor, bmcType, probes, lower);
    AvailableMembers(probes, best);
    ListedMembers(ToLower(vendor, lower), ToLower(bmcType, lower), best);
    d := Detection(vendor, model, bmcType, supported, best, probes);
  }

  /** Whenever two of these results are available, the one listed first has the higher priority. */
  ghost predicate InPriorityOrder(probes: seq<ProbeResult>) {
    forall i, j, p, q :: 0 <= i < j < |probes| && 0 <= p < |PRIORITY| && 0 <= q < |PRIORITY|
      && probes[i].available && probes[j].available && probes[i].protocol == PRIORITY[p] && probes[j].protocol == PRIORITY[q]
      ==> p < q
  }

  /** The probe list is documented to be in priority order; it is, exactly unless both IPMI and SNMP are available. */
  lemma InPriorityOrderIff(outs: seq<ProbeOutput>)
    requires |outs| == |PROBES|
    ensures InPriorityOrder(Results(outs)) <==> !(outs[1].available && outs[2].available)
  {
    var probes := Results(outs);
    assert probes[1].protocol == PRIORITY[2] && probes[2].protocol == PRIORITY[1];
    forall i, p | 0 <= i < |probes| && 0 <= p < |PRIORITY|
      ensures probes[i].protocol == PRIORITY[p] ==> i == (if p == 1 then 2 else if p == 2 then 1 else p)
    {
      NamesDiffer(i, p);
    }
  }

  /** Where the protocol of priority `p` stands in the probe list. */
  lemma NamesDiffer(i: nat, p: nat)
    requires i < |PROBES| && p < |PRIORITY|
    ensures PROBES[i].0 == PRIORITY[p] ==> i == if p == 1 then 2 else if p == 2 then 1 else p
  {
    assert |"redfish"| == 7 && |"ipmi"| == 4 && |"snmp"| == 4 && |"ssh"| == 3 && |"wsman"| == 5 && |"kvm"| == 3;
    assert "ipmi"[0] != "snmp"[0] && "kvm"[0] != "ssh"[0];
  }

  /** The priority list leaves no choice. */
  lemma RecommendationUnique(probes: seq<ProbeResult>, a: string, b: string)
    requires IsRecommended(probes, a) && IsRecommended(probes, b)
    ensures a == b
  {
    if a != "unknown" && b != "unknown" {
      var p :| 0 <= p < |PRIORITY| && a == PRIORITY[p] && Offers(probes, a) && forall q :: 0 <= q < p ==> !Offers(probes, PRIORITY[q]);
      var q :| 0 <= q < |PRIORITY| && b == PRIORITY[q] && Offers(probes, b) && forall r :: 0 <= r < q ==> !Offers(probes, PRIORITY[r]);
      assert p == q;
    }
  }
}
