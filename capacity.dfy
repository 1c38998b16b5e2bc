/** The availability-zone capacity probe: every zone of the region is tried
    with a dry-run launch of each instance type on the first subnet the VPC
    has in that zone, each outcome is classified, and the zones where every
    type has capacity are recommended. The EC2 calls are parameters:
    `subnetsOf(zone)` is the subnet listing of the VPC in that zone, and
    `launch(type, subnet)` is the dry-run launch, `None` when it raises
    nothing and `Some(message)` when it raises. */
module Capacity {
  import opened Wrappers
  import Text

  /** What one dry run says about one instance type: the script's `True`,
      `False` and `None`. */
  datatype Verdict = HasCapacity | NoCapacity | Unclear

  /** The instance types the script probes, in order. */
  const InstanceTypes: seq<string> := ["m5.large", "m5.xlarge", "m6i.large", "m6i.xlarge",
                                       "m6i.2xlarge", "m7i.xlarge", "m7i.2xlarge", "m7a.xlarge"]

  /** The classification of the text of a dry-run error; the dry-run marker
      is looked for first. */
  function Classify(error: string): (v: Verdict)
    ensures v == HasCapacity <==> Text.Contains(error, "DryRunOperation")
    ensures v == NoCapacity <==>
      !Text.Contains(error, "DryRunOperation") && Text.Contains(error, "InsufficientInstanceCapacity")
  {
    if Text.Contains(error, "DryRunOperation") then HasCapacity
    else if Text.Contains(error, "InsufficientInstanceCapacity") then NoCapacity
    else Unclear
  }

  /** `results[az]`: the subnet used and the verdict recorded per type. */
  datatype ZoneResult = ZoneResult(subnetId: string, verdicts: map<string, Verdict>)

  /** The `results` dict: its keys in insertion order, and the entries. */
  datatype Results = Results(order: seq<string>, zones: map<string, ZoneResult>)

  /** The keys listed in `order` are exactly the entries, each once. */
  predicate WellFormed(r: Results)
  {
    && (forall az | az in r.order :: az in r.zones)
    && (forall az | az in r.zones :: az in r.order)
    && (forall i, j | 0 <= i < j < |r.order| :: r.order[i] != r.order[j])
  }

  /** The verdicts after probing `types` in order on `subnet`: a launch that
      raises nothing records no entry. */
  function Verdicts(types: seq<string>, subnet: string, launch: (string, string) -> Option<string>): map<string, Verdict>
  {
    if types == [] then map[]
    else
      var before := Verdicts(types[..|types| - 1], subnet, launch);
      var itype := types[|types| - 1];
      var outcome := launch(itype, subnet);
      if outcome.Some? then before[itype := Classify(outcome.value)] else before
  }

  /** `results` after the zones in `zones` have been visited in order. */
  function ProbeAll(zones: seq<string>, types: seq<string>, subnetsOf: string -> seq<string>,
                    launch: (string, string) -> Option<string>): Results
  {
    if zones == [] then Results([], map[])
    else
      var before := ProbeAll(zones[..|zones| - 1], types, subnetsOf, launch);
      var az := zones[|zones| - 1];
      var subnets := subnetsOf(az);
      if subnets == [] then before
      else
        var entry := ZoneResult(subnets[0], Verdicts(types, subnets[0], launch));
        Results(if az in before.zones then before.order else before.order + [az], before.zones[az := entry])
  }

  /** The two nested probe loops. */
  method ProbeZones(zones: seq<string>, types: seq<string>, subnetsOf: string -> seq<string>,
                    launch: (string, string) -> Option<string>) returns (results: Results)
    ensures results == ProbeAll(zones, types, subnetsOf, launch)
  {
    results := Results([], map[]);
    for i := 0 to |zones|
      invariant results == ProbeAll(zones[..i], types, subnetsOf, launch)
    {
      assert zones[..i + 1][..i] == zones[..i];
      var az := zones[i];
      var subnets := subnetsOf(az);
      if subnets != [] {
        var subnetId := subnets[0];
        var verdicts: map<string, Verdict> := map[];
        for j := 0 to |types|
          invariant verdicts == Verdicts(types[..j], subnetId, launch)
        {
          assert types[..j + 1][..j] == types[..j];
          var outcome := launch(types[j], subnetId);
          if outcome.Some? {
            verdicts := verdicts[types[j] := Classify(outcome.value)];
          }
        }
        assert types[..|types|] == types;
        var order := if az in results.zones then results.order else results.order + [az];
        results := Results(order, results.zones[az := ZoneResult(subnetId, verdicts)]);
      }
    }
    assert zones[..|zones|] == zones;
  }

  /** A type has an entry exactly when its launch raised, and the entry is
      the classification of what it raised. */
  lemma {:induction false} VerdictsMeaning(types: seq<string>, subnet: string, launch: (string, string) -> Option<string>)
    ensures forall t :: t in Verdicts(types, subnet, launch) <==> t in types && launch(t, subnet).Some?
    ensures forall t | t in Verdicts(types, subnet, launch) ::
      Verdicts(types, subnet, launch)[t] == Classify(launch(t, subnet).value)
  {
    if types != [] {
      var init := types[..|types| - 1];
      VerdictsMeaning(init, subnet, launch);
      assert forall t :: t in types <==> t in init || t == types[|types| - 1];
    }
  }

  /** A zone gets an entry exactly when the VPC has a subnet in it; the
      entry uses the first subnet listed and holds that subnet's verdicts;
      the key order lists every entry once. */
  lemma {:induction false} ProbeAllMeaning(zones: seq<string>, types: seq<string>, subnetsOf: string -> seq<string>,
                                           launch: (string, string) -> Option<string>)
    ensures var r := ProbeAll(zones, types, subnetsOf, launch);
      && WellFormed(r)
      && (forall az :: az in r.zones <==> az in zones && subnetsOf(az) != [])
      && (forall az | az in r.zones :: r.zones[az] == ZoneResult(subnetsOf(az)[0], Verdicts(types, subnetsOf(az)[0], launch)))
  {
    if zones != [] {
      var init := zones[..|zones| - 1];
      ProbeAllMeaning(init, types, subnetsOf, launch);
      assert forall az :: az in zones <==> az in init || az == zones[|zones| - 1];
    }
  }

  /** `all(data['types'].get(t) for t in types)`: every type has an entry
      and the entry is `True`. */
  predicate Qualifies(zone: ZoneResult, types: seq<string>)
  {
    forall t | t in types :: t in zone.verdicts && zone.verdicts[t] == HasCapacity
  }

  /** The zones of `order` that qualify, in order. */
  function Good(order: seq<string>, zones: map<string, ZoneResult>, types: seq<string>): (good: seq<string>)
    requires forall az | az in order :: az in zones
    ensures forall az | az in good :: az in order
  {
    if order == [] then []
    else
      var init := order[..|order| - 1];
      var az := order[|order| - 1];
      Good(init, zones, types) + if Qualifies(zones[az], types) then [az] else []
  }

  /** The `good_azs` loop. */
  method GoodZones(results: Results, types: seq<string>) returns (good: seq<string>)
    requires WellFormed(results)
    ensures good == Good(results.order, results.zones, types)
  {
    good := [];
    for i := 0 to |results.order|
      invariant good == Good(results.order[..i], results.zones, types)
    {
      assert results.order[..i + 1][..i] == results.order[..i];
      var az := results.order[i];
      if Qualifies(results.zones[az], types) {
        good := good + [az];
      }
    }
    assert results.order[..|results.order|] == results.order;
  }

  /** A zone is recommended exactly when it has an entry and every type has
      a recorded verdict of capacity; recommended zones keep the order of
      the results, so each comes no later than in `order`. */
  lemma {:induction false} GoodMeaning(order: seq<string>, zones: map<string, ZoneResult>, types: seq<string>)
    requires forall az | az in order :: az in zones
    ensures forall az :: az in Good(order, zones, types) <==> az in order && Qualifies(zones[az], types)
    ensures |Good(order, zones, types)| <= |order|
  {
    if order != [] {
      var init := order[..|order| - 1];
      GoodMeaning(init, zones, types);
      assert forall az :: az in order <==> az in init || az == order[|order| - 1];
    }
  }

  /** Good zones are taken in the order of the results: `Good` of a longer
      key list extends `Good` of a shorter prefix of it. */
  lemma {:induction false} GoodKeepsOrder(order: seq<string>, n: nat, zones: map<string, ZoneResult>, types: seq<string>)
    requires n <= |order|
    requires forall az | az in order :: az in zones
    ensures Good(order[..n], zones, types) <= Good(order, zones, types)
    decreases |order|
  {
    if n < |order| {
      var init := order[..|order| - 1];
      assert init[..n] == order[..n];
      GoodKeepsOrder(init, n, zones, types);
    } else {
      assert order[..n] == order;
    }
  }

  /** What the script prints at the end. */
  datatype Advice =
    | Recommend(listed: seq<(string, string)>, suggested: seq<(string, string)>)
    | NoZoneHasCapacity

  /** The zone and subnet pairs for `good`, in order. */
  function Pairs(good: seq<string>, zones: map<string, ZoneResult>): (p: seq<(string, string)>)
    requires forall az | az in good :: az in zones
    ensures |p| == |good|
    ensures forall i | 0 <= i < |good| :: p[i] == (good[i], zones[good[i]].subnetId)
  {
    seq(|good|, i requires 0 <= i < |good| => (good[i], zones[good[i]].subnetId))
  }

  /** Every good zone is listed with its subnet; the suggested configuration
      holds the first three (or fewer). */
  function Advise(good: seq<string>, zones: map<string, ZoneResult>): Advice
    requires forall az | az in good :: az in zones
  {
    if good == [] then NoZoneHasCapacity
    else
      var listed := Pairs(good, zones);
      Recommend(listed, if |listed| <= 3 then listed else listed[..3])
  }

  /** The "no capacity" message is printed exactly when no zone of the
      results qualifies; otherwise every qualifying zone is listed with its
      subnet, in the order of the results, and the suggestion is the first
      `min(3, count)` of that list. */
  lemma AdviseMeaning(order: seq<string>, zones: map<string, ZoneResult>, types: seq<string>)
    requires forall az | az in order :: az in zones
    ensures var good := Good(order, zones, types);
      var advice := Advise(good, zones);
      && (advice.NoZoneHasCapacity? <==> forall az | az in order :: !Qualifies(zones[az], types))
      && (advice.Recommend? ==>
            && |advice.listed| == |good|
            && |advice.suggested| == (if |good| < 3 then |good| else 3)
            && advice.suggested <= advice.listed
            && forall i | 0 <= i < |advice.listed| ::
                 && advice.listed[i].0 == good[i]
                 && advice.listed[i].0 in order
                 && Qualifies(zones[advice.listed[i].0], types)
                 && advice.listed[i].1 == zones[advice.listed[i].0].subnetId)
  {
    var good := Good(order, zones, types);
    GoodMeaning(order, zones, types);
    if good != [] {
      assert good[0] in good;
      forall i | 0 <= i < |good| ensures good[i] in order && Qualifies(zones[good[i]], types) {
        assert good[i] in good;
      }
    }
  }

  /** A zone is recommended exactly when every type's dry run raised the
      dry-run marker: an unclassified error, a capacity error or a launch
      that raised nothing each exclude it. */
  lemma QualifiesMeansEveryDryRunPassed(zone: string, types: seq<string>, subnetsOf: string -> seq<string>,
                                        launch: (string, string) -> Option<string>)
    requires subnetsOf(zone) != []
    ensures var v := Verdicts(types, subnetsOf(zone)[0], launch);
      Qualifies(ZoneResult(subnetsOf(zone)[0], v), types) <==>
        forall t | t in types :: launch(t, subnetsOf(zone)[0]).Some? &&
          Text.Contains(launch(t, subnetsOf(zone)[0]).value, "DryRunOperation")
  {
    VerdictsMeaning(types, subnetsOf(zone)[0], launch);
  }
}
