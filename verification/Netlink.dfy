/** Netlink import and export: the rule comparison, and passes that stop issuing calls. */
module Netlink {
  import opened Wrappers
  import opened Messages

  type int32 = x: int | -0x8000_0000 <= x < 0x8000_0000

  const DEFAULT_DAMPENING: uint32 := 100
  const DEFAULT_PROTOCOL: int32 := 186

  // ---- custom resource ----

  datatype ImportSpec = ImportSpec(enabled: bool, vrf: string, interfaces: seq<string>)
  datatype RuleSpec = RuleSpec(name: string, communities: seq<string>, largeCommunities: seq<string>, vrf: string,
                               tableId: int32, metric: uint32, validateNexthop: Option<bool>)
  datatype ExportSpec = ExportSpec(enabled: bool, dampeningInterval: uint32, routeProtocol: int32, rules: seq<RuleSpec>)
  datatype VrfExportSpec = VrfExportSpec(enabled: bool, linuxVrf: string, linuxTableId: int32, metric: uint32,
                                         validateNexthop: Option<bool>, communities: seq<string>, largeCommunities: seq<string>)
  datatype VrfSpec = VrfSpec(name: string, netlinkImport: Option<ImportSpec>, netlinkExport: Option<VrfExportSpec>)
  datatype NetlinkSpec = NetlinkSpec(netlinkImport: Option<ImportSpec>, netlinkExport: Option<ExportSpec>, vrfs: seq<VrfSpec>)

  // ---- what the daemon reports ----

  datatype Rule = Rule(name: string, communities: seq<string>, largeCommunities: seq<string>, vrf: string,
                       tableId: int32, metric: uint32, validateNexthop: bool)
  datatype Import = Import(enabled: bool, vrf: string, interfaces: seq<string>)
  datatype Export = Export(enabled: bool, dampeningInterval: uint32, routeProtocol: int32, rules: seq<Rule>)
  datatype VrfExport = VrfExport(linuxVrf: string, linuxTableId: int32, metric: uint32, validateNexthop: bool,
                                 communities: seq<string>, largeCommunities: seq<string>)
  datatype VrfState = VrfState(imported: Import, exported: Option<VrfExport>)

  // ---- export rules ----

  /** A rule as the daemon holds it: an unset validateNexthop is true. */
  function Normalized(r: RuleSpec): Rule {
    Rule(r.name, r.communities, r.largeCommunities, r.vrf, r.tableId, r.metric, r.validateNexthop.GetOr(true))
  }

  function AllNormalized(rules: seq<RuleSpec>): (r: seq<Rule>)
    ensures |r| == |rules|
  {
    seq(|rules|, i requires 0 <= i < |rules| => Normalized(rules[i]))
  }

  /** The rule a lookup by name finds: the last one of that name. */
  function LastNamed(rules: seq<Rule>, name: string): (r: Option<Rule>)
    ensures r.Some? ==> r.value in rules && r.value.name == name
    ensures r.None? ==> forall x :: x in rules ==> x.name != name
  {
    if rules == [] then None
    else if rules[|rules| - 1].name == name then Some(rules[|rules| - 1])
    else LastNamed(rules[..|rules| - 1], name)
  }

  ghost predicate RulesMatch(current: seq<Rule>, desired: seq<RuleSpec>) {
    && |current| == |desired|
    && forall i :: 0 <= i < |desired| ==> LastNamed(current, desired[i].name) == Some(Normalized(desired[i]))
  }

  /** netlinkExportRulesMatch. */
  method NetlinkExportRulesMatch(current: seq<Rule>, desired: seq<RuleSpec>) returns (r: bool)
    ensures r <==> RulesMatch(current, desired)
  {
    if |current| != |desired| {
      return false;
    }
    var currentMap: map<string, Rule> := map[];
    for i := 0 to |current|
      invariant forall n :: LastNamed(current[..i], n) == if n in currentMap then Some(currentMap[n]) else None
    {
      assert current[..i + 1][..i] == current[..i];
      currentMap := currentMap[current[i].name := current[i]];
    }
    assert current[..|current|] == current;
    for i := 0 to |desired|
      invariant forall j :: 0 <= j < i ==> LastNamed(current, desired[j].name) == Some(Normalized(desired[j]))
    {
      var d := desired[i];
      if d.name !in currentMap {
        return false;
      }
      var c := currentMap[d.name];
      if c.communities != d.communities || c.largeCommunities != d.largeCommunities || c.vrf != d.vrf
         || c.tableId != d.tableId || c.metric != d.metric {
        return false;
      }
      var validateNexthop := true;
      if d.validateNexthop.Some? {
        validateNexthop := d.validateNexthop.value;
      }
      if c.validateNexthop != validateNexthop {
        return false;
      }
    }
    return true;
  }

  ghost predicate DistinctNames(rules: seq<RuleSpec>) {
    forall i, j :: 0 <= i < j < |rules| ==> rules[i].name != rules[j].name
  }

  lemma OneMoreCounted(some: multiset<Rule>, r: Rule, all: multiset<Rule>)
    requires some <= all && r !in some && r in all
    ensures some + multiset{r} <= all
  {
  }

  lemma {:induction false} DistinctAreCountedOnce(rules: seq<Rule>, all: multiset<Rule>)
    requires forall i, j :: 0 <= i < j < |rules| ==> rules[i] != rules[j]
    requires forall i :: 0 <= i < |rules| ==> rules[i] in all
    ensures multiset(rules) <= all
  {
    if rules != [] {
      var n := |rules| - 1;
      var init := rules[..n];
      assert forall i :: 0 <= i < n ==> init[i] == rules[i];
      DistinctAreCountedOnce(init, all);
      assert rules == init + [rules[n]];
      assert rules[n] !in init;
      OneMoreCounted(multiset(init), rules[n], all);
    }
  }

  lemma SameSizeSubset(a: multiset<Rule>, b: multiset<Rule>)
    requires a <= b && |a| == |b|
    ensures a == b
  {
    assert |b - a| == 0;
    assert b == a + (b - a);
  }

  /** For distinct desired names, and in whatever order the daemon lists its rules, the comparison succeeds
      exactly when the rules in force are the desired ones, each once. */
  lemma RulesMatchIffPermutation(current: seq<Rule>, desired: seq<RuleSpec>)
    requires DistinctNames(desired)
    ensures RulesMatch(current, desired) <==> multiset(current) == multiset(AllNormalized(desired))
  {
    var wanted := AllNormalized(desired);
    if RulesMatch(current, desired) {
      forall i | 0 <= i < |wanted| ensures wanted[i] in multiset(current) {
        assert LastNamed(current, desired[i].name) == Some(wanted[i]);
      }
      DistinctAreCountedOnce(wanted, multiset(current));
      SameSizeSubset(multiset(wanted), multiset(current));
    }
    if multiset(current) == multiset(wanted) {
      assert |current| == |multiset(current)| == |multiset(wanted)| == |wanted|;
      NamesAgreeWhenDistinct(desired);
      PermutationMatchesIff(current, desired);
    }
  }

  /** Desired rules of one name are one rule. */
  ghost predicate NamesAgree(rules: seq<RuleSpec>) {
    forall i, j :: 0 <= i < |rules| && 0 <= j < |rules| && rules[i].name == rules[j].name ==> Normalized(rules[i]) == Normalized(rules[j])
  }

  lemma NamesAgreeWhenDistinct(rules: seq<RuleSpec>)
    requires DistinctNames(rules)
    ensures NamesAgree(rules)
  {
  }

  /** What was sent compares equal to itself, in any order, exactly when equal names mean equal rules. Nothing
      enforces the unique names that the resource documents; a breach re-enables the export on every pass. */
  lemma PermutationMatchesIff(current: seq<Rule>, desired: seq<RuleSpec>)
    requires multiset(current) == multiset(AllNormalized(desired))
    ensures RulesMatch(current, desired) <==> NamesAgree(desired)
  {
    var wanted := AllNormalized(desired);
    assert |current| == |multiset(current)| == |multiset(wanted)| == |wanted|;
    if NamesAgree(desired) {
      forall i | 0 <= i < |desired| ensures LastNamed(current, desired[i].name) == Some(wanted[i]) {
        assert wanted[i] in multiset(current);
        var found := LastNamed(current, desired[i].name).value;
        assert found in multiset(wanted);
        var j :| 0 <= j < |wanted| && wanted[j] == found;
      }
    }
    if RulesMatch(current, desired) {
      MatchedNamesAgree(current, desired);
    }
  }

  /** Without distinct names a match need not be a permutation. */
  lemma RepeatedNamesCanHideARule(a: RuleSpec, b: RuleSpec)
    requires a.name != b.name
    ensures RulesMatch([Normalized(b), Normalized(a)], [a, a])
    ensures multiset([Normalized(b), Normalized(a)]) != multiset(AllNormalized([a, a]))
  {
    var current := [Normalized(b), Normalized(a)];
    assert current[..1] == [Normalized(b)];
    assert Normalized(b) in multiset(current);
    assert AllNormalized([a, a]) == [Normalized(a), Normalized(a)];
  }

  /** Whatever matches the desired rules is a permutation of them. */
  ghost predicate MatchesOnlyPermutations(desired: seq<RuleSpec>) {
    forall current :: RulesMatch(current, desired) ==> multiset(current) == multiset(AllNormalized(desired))
  }

  /** Longer than every rule's name. */
  function FreshName(rules: seq<RuleSpec>): string {
    if rules == [] then "x" else FreshName(rules[..|rules| - 1]) + rules[|rules| - 1].name
  }

  lemma {:induction false} FreshNameIsLonger(rules: seq<RuleSpec>, i: nat)
    requires i < |rules|
    ensures |FreshName(rules)| > |rules[i].name|
  {
    var n := |rules| - 1;
    FreshNameIsNotEmpty(rules[..n]);
    if i < n {
      FreshNameIsLonger(rules[..n], i);
    }
  }

  lemma {:induction false} FreshNameIsNotEmpty(rules: seq<RuleSpec>)
    ensures FreshName(rules) != ""
  {
    if rules != [] {
      FreshNameIsNotEmpty(rules[..|rules| - 1]);
    }
  }

  /** Of two desired rules that are one and the same, the first can be replaced by a rule that nobody wants. */
  lemma HiddenRule(desired: seq<RuleSpec>, i: nat, j: nat) returns (current: seq<Rule>)
    requires i < j < |desired| && desired[i].name == desired[j].name && NamesAgree(desired)
    ensures RulesMatch(current, desired) && multiset(current) != multiset(AllNormalized(desired))
  {
    var wanted := AllNormalized(desired);
    var extra := Normalized(desired[i].(name := FreshName(desired)));
    current := wanted[i := extra];
    forall k | 0 <= k < |desired| ensures desired[k].name != extra.name {
      FreshNameIsLonger(desired, k);
    }
    forall k | 0 <= k < |desired| ensures LastNamed(current, desired[k].name) == Some(wanted[k]) {
      var at := if k == i then j else k;
      assert current[at] == wanted[at] && wanted[at].name == desired[k].name;
      assert current[at] in current;
      var found := LastNamed(current, desired[k].name).value;
      var m :| 0 <= m < |current| && current[m] == found;
      assert m != i && found == wanted[m];
    }
    assert current[i] in multiset(current);
    forall k | 0 <= k < |wanted| ensures wanted[k] != extra {
      assert wanted[k].name == desired[k].name;
    }
    assert extra !in multiset(wanted);
  }

  /** A match is a permutation exactly when the desired names are distinct, or when equal names disagree, and
      then nothing matches. */
  lemma MatchesOnlyPermutationsIff(desired: seq<RuleSpec>)
    ensures MatchesOnlyPermutations(desired) <==> DistinctNames(desired) || !NamesAgree(desired)
  {
    forall current | (DistinctNames(desired) || !NamesAgree(desired)) && RulesMatch(current, desired)
      ensures multiset(current) == multiset(AllNormalized(desired)) {
      if DistinctNames(desired) {
        RulesMatchIffPermutation(current, desired);
      } else {
        MatchedNamesAgree(current, desired);
      }
    }
    if !DistinctNames(desired) && NamesAgree(desired) {
      var i, j :| 0 <= i < j < |desired| && desired[i].name == desired[j].name;
      var current := HiddenRule(desired, i, j);
    }
  }

  lemma MatchedNamesAgree(current: seq<Rule>, desired: seq<RuleSpec>)
    requires RulesMatch(current, desired)
    ensures NamesAgree(desired)
  {
    forall i, j | 0 <= i < |desired| && 0 <= j < |desired| && desired[i].name == desired[j].name
      ensures Normalized(desired[i]) == Normalized(desired[j]) {
      assert LastNamed(current, desired[i].name) == LastNamed(current, desired[j].name);
    }
  }

  // ---- what a pass does ----

  function ImportOfSpec(spec: Option<ImportSpec>): Import {
    match spec
    case Some(i) => Import(i.enabled, i.vrf, i.interfaces)
    case None => Import(false, "", [])
  }

  predicate NeedsImport(spec: Option<ImportSpec>, current: Import) {
    var d := ImportOfSpec(spec);
    d.enabled != current.enabled || (d.enabled && (d.interfaces != current.interfaces || d.vrf != current.vrf))
  }

  ghost predicate NeedsExport(spec: Option<ExportSpec>, current: Export) {
    if spec.None? || !spec.value.enabled then current.enabled
    else
      || !current.enabled
      || (spec.value.dampeningInterval != 0 && spec.value.dampeningInterval != current.dampeningInterval)
      || (spec.value.routeProtocol != 0 && spec.value.routeProtocol != current.routeProtocol)
      || !RulesMatch(current.rules, spec.value.rules)
  }

  /** The import that runs is the one the resource states. */
  predicate ImportInForce(i: Import, spec: Option<ImportSpec>) {
    if spec.Some? && spec.value.enabled then i.enabled && i.vrf == spec.value.vrf && i.interfaces == spec.value.interfaces
    else !i.enabled
  }

  lemma ImportQuietIffInForce(spec: Option<ImportSpec>, i: Import)
    ensures !NeedsImport(spec, i) <==> ImportInForce(i, spec)
  {
  }

  /** The export that runs is the one the resource states. Under distinct names the rules in force are the
      stated ones, each once and in any order. */
  ghost predicate ExportInForce(e: Export, spec: Option<ExportSpec>) {
    if spec.Some? && spec.value.enabled then
      && e.enabled
      && (spec.value.dampeningInterval != 0 ==> e.dampeningInterval == spec.value.dampeningInterval)
      && (spec.value.routeProtocol != 0 ==> e.routeProtocol == spec.value.routeProtocol)
      && (forall i :: 0 <= i < |spec.value.rules| ==> RuleInForce(spec.value.rules[i], e.rules))
      && (MatchesOnlyPermutations(spec.value.rules) ==> multiset(e.rules) == multiset(AllNormalized(spec.value.rules)))
    else !e.enabled
  }

  /** A rule is among those in force; next hops are validated unless it says otherwise. */
  predicate RuleInForce(r: RuleSpec, rules: seq<Rule>) {
    Rule(r.name, r.communities, r.largeCommunities, r.vrf, r.tableId, r.metric, r.validateNexthop != Some(false)) in rules
  }

  lemma PermutedRulesAreInForce(desired: seq<RuleSpec>, rules: seq<Rule>)
    requires multiset(rules) == multiset(AllNormalized(desired))
    ensures forall i :: 0 <= i < |desired| ==> RuleInForce(desired[i], rules)
  {
    forall i | 0 <= i < |desired| ensures RuleInForce(desired[i], rules) {
      assert AllNormalized(desired)[i] in multiset(rules);
    }
  }

  /** An export that is in order, and one that was just put in order, is in force. */
  lemma ExportPassInForce(before: Export, after: Export, spec: Option<ExportSpec>)
    requires ExportPass(before, after, spec)
    ensures ExportInForce(after, spec)
  {
    if spec.Some? && spec.value.enabled {
      if NeedsExport(spec, before) {
        PermutedRulesAreInForce(spec.value.rules, after.rules);
      } else {
        var rules := spec.value.rules;
        forall i | 0 <= i < |rules| ensures RuleInForce(rules[i], after.rules) {
          assert LastNamed(after.rules, rules[i].name) == Some(Normalized(rules[i]));
        }
      }
    }
  }

  /** The daemon's export after an EnableNetlinkExport: defaults filled in, rules in an order of its own. */
  ghost predicate Exports(after: Export, spec: ExportSpec) {
    && after.enabled
    && after.dampeningInterval == (if spec.dampeningInterval == 0 then DEFAULT_DAMPENING else spec.dampeningInterval)
    && after.routeProtocol == (if spec.routeProtocol == 0 then DEFAULT_PROTOCOL else spec.routeProtocol)
    && multiset(after.rules) == multiset(AllNormalized(spec.rules))
  }

  /** The export part of a pass without failures. */
  ghost predicate ExportPass(before: Export, after: Export, spec: Option<ExportSpec>) {
    if !NeedsExport(spec, before) then after == before
    else if spec.Some? && spec.value.enabled then Exports(after, spec.value)
    else !after.enabled
  }

  /** After a pass, the export needs nothing more: always when it was in order or is switched off, and
      otherwise exactly when equal names mean equal rules. */
  lemma ExportSettlesIff(before: Export, after: Export, spec: Option<ExportSpec>)
    requires ExportPass(before, after, spec)
    ensures !NeedsExport(spec, after) <==>
            (NeedsExport(spec, before) && spec.Some? && spec.value.enabled ==> NamesAgree(spec.value.rules))
  {
    if NeedsExport(spec, before) && spec.Some? && spec.value.enabled {
      PermutationMatchesIff(after.rules, spec.value.rules);
    }
  }

  // ---- per VRF ----

  /** The sent and the reported form differ in polarity: skip against validate. */
  datatype VrfExportConfig = VrfExportConfig(linuxVrf: string, linuxTableId: int32, metric: uint32, skipNexthopValidation: bool,
                                             communities: seq<string>, largeCommunities: seq<string>)

  /** crdToAPIVrfNetlinkExportConfig. */
  function ToVrfExportConfig(e: VrfExportSpec): VrfExportConfig {
    VrfExportConfig(e.linuxVrf, e.linuxTableId, e.metric,
                    if e.validateNexthop.Some? then !e.validateNexthop.value else false,
                    e.communities, e.largeCommunities)
  }

  /** The daemon's side: the Linux VRF defaults to the VRF's own name, the table is looked up. */
  function ReportedVrfExport(vrf: string, c: VrfExportConfig, tableOf: string -> int32): VrfExport {
    var linuxVrf := if c.linuxVrf == "" then vrf else c.linuxVrf;
    VrfExport(linuxVrf, if c.linuxTableId == 0 then tableOf(linuxVrf) else c.linuxTableId, c.metric,
              !c.skipNexthopValidation, c.communities, c.largeCommunities)
  }

  /** vrfNetlinkExportEqual. */
  predicate VrfExportEqual(d: VrfExportSpec, c: VrfExport) {
    && (d.linuxVrf == "" || d.linuxVrf == c.linuxVrf)
    && (d.linuxTableId == 0 || d.linuxTableId == c.linuxTableId)
    && d.metric == c.metric
    && d.validateNexthop.GetOr(true) == c.validateNexthop
    && d.communities == c.communities && d.largeCommunities == c.largeCommunities
  }

  function VrfImportCalls(v: VrfSpec, current: Import): nat {
    if v.netlinkImport.None? then 0
    else if v.netlinkImport.value.enabled != current.enabled then 1
    else if v.netlinkImport.value.enabled && v.netlinkImport.value.interfaces != current.interfaces then 2
    else 0
  }

  function VrfExportCalls(v: VrfSpec, current: Option<VrfExport>): nat {
    if v.netlinkExport.None? then 0
    else if v.netlinkExport.value.enabled then
      if current.Some? && VrfExportEqual(v.netlinkExport.value, current.value) then 0 else 1
    else if current.Some? then 1 else 0
  }

  /** A VRF's import and export are those that an entry states; what it omits may be anything. */
  predicate VrfInForce(v: VrfSpec, s: VrfState) {
    && (v.netlinkImport.Some? ==>
         if v.netlinkImport.value.enabled then s.imported.enabled && s.imported.interfaces == v.netlinkImport.value.interfaces
         else !s.imported.enabled)
    && (v.netlinkExport.Some? ==>
         if v.netlinkExport.value.enabled then s.exported.Some? && VrfExportInForce(v.netlinkExport.value, s.exported.value)
         else s.exported.None?)
  }

  predicate VrfExportInForce(e: VrfExportSpec, s: VrfExport) {
    && (e.linuxVrf != "" ==> s.linuxVrf == e.linuxVrf)
    && (e.linuxTableId != 0 ==> s.linuxTableId == e.linuxTableId)
    && s.metric == e.metric && s.communities == e.communities && s.largeCommunities == e.largeCommunities
    && s.validateNexthop == (e.validateNexthop != Some(false))
  }

  /** An entry calls for nothing exactly when it is in force. */
  lemma VrfQuietIffInForce(v: VrfSpec, s: VrfState)
    ensures VrfCalls(v, s) == 0 <==> VrfInForce(v, s)
  {
    assert v.netlinkExport.Some? && s.exported.Some? ==>
      (VrfExportEqual(v.netlinkExport.value, s.exported.value) <==> VrfExportInForce(v.netlinkExport.value, s.exported.value));
  }

  predicate AllVrfsInForce(vrfs: seq<VrfSpec>, states: map<string, VrfState>) {
    forall i :: 0 <= i < |vrfs| && vrfs[i].name in states ==> VrfInForce(vrfs[i], states[vrfs[i].name])
  }

  lemma AllQuietIffInForce(vrfs: seq<VrfSpec>, states: map<string, VrfState>)
    ensures AllVrfCalls(vrfs, states) == 0 <==> AllVrfsInForce(vrfs, states)
  {
    hide VrfCalls, VrfInForce;
    NoVrfCallsIff(vrfs, states);
    forall i | 0 <= i < |vrfs| && vrfs[i].name in states
      ensures VrfCalls(vrfs[i], states[vrfs[i].name]) == 0 <==> VrfInForce(vrfs[i], states[vrfs[i].name]) {
      VrfQuietIffInForce(vrfs[i], states[vrfs[i].name]);
    }
  }

  /** What no entry names is left alone. */
  ghost predicate OthersKept(vrfs: seq<VrfSpec>, before: map<string, VrfState>, after: map<string, VrfState>) {
    forall n :: n in before && (forall i :: 0 <= i < |vrfs| ==> vrfs[i].name != n) ==> n in after && after[n] == before[n]
  }

  lemma NoneTouched(vrfs: seq<VrfSpec>, states: map<string, VrfState>)
    ensures OthersKept(vrfs, states, states)
  {
  }

  lemma NamedTouched(vrfs: seq<VrfSpec>, i: nat, before: map<string, VrfState>, mid: map<string, VrfState>, s: VrfState)
    requires i < |vrfs| && OthersKept(vrfs, before, mid)
    ensures OthersKept(vrfs, before, mid[vrfs[i].name := s])
  {
  }

  function VrfCalls(v: VrfSpec, s: VrfState): nat {
    VrfImportCalls(v, s.imported) + VrfExportCalls(v, s.exported)
  }

  /** What the calls for an entry leave; an entry that states no import, or no export, asks for none. */
  function WantedImport(v: VrfSpec): Import {
    if v.netlinkImport.Some? && v.netlinkImport.value.enabled then Import(true, "", v.netlinkImport.value.interfaces)
    else Import(false, "", [])
  }

  function WantedExport(v: VrfSpec, tableOf: string -> int32): Option<VrfExport> {
    if v.netlinkExport.Some? && v.netlinkExport.value.enabled
    then Some(ReportedVrfExport(v.name, ToVrfExportConfig(v.netlinkExport.value), tableOf))
    else None
  }

  /** The last entry of a VRF that calls for an import change; each decides against the state read first. */
  function LastDueImport(vrfs: seq<VrfSpec>, name: string, current: Import): (r: Option<VrfSpec>)
    ensures r.Some? ==> r.value in vrfs && r.value.name == name && r.value.netlinkImport.Some? && VrfImportCalls(r.value, current) > 0
    ensures r.None? ==> forall v :: v in vrfs && v.name == name ==> VrfImportCalls(v, current) == 0
  {
    if vrfs == [] then None
    else
      var v := vrfs[|vrfs| - 1];
      if v.name == name && VrfImportCalls(v, current) > 0 then Some(v) else LastDueImport(vrfs[..|vrfs| - 1], name, current)
  }

  function LastDueExport(vrfs: seq<VrfSpec>, name: string, current: Option<VrfExport>): (r: Option<VrfSpec>)
    ensures r.Some? ==> r.value in vrfs && r.value.name == name && r.value.netlinkExport.Some? && VrfExportCalls(r.value, current) > 0
    ensures r.None? ==> forall v :: v in vrfs && v.name == name ==> VrfExportCalls(v, current) == 0
  {
    if vrfs == [] then None
    else
      var v := vrfs[|vrfs| - 1];
      if v.name == name && VrfExportCalls(v, current) > 0 then Some(v) else LastDueExport(vrfs[..|vrfs| - 1], name, current)
  }

  /** A VRF after the turns of the entries. */
  function VrfAfter(vrfs: seq<VrfSpec>, name: string, s: VrfState, tableOf: string -> int32): VrfState {
    VrfState(
      match LastDueImport(vrfs, name, s.imported) case None => s.imported case Some(v) => WantedImport(v),
      match LastDueExport(vrfs, name, s.exported) case None => s.exported case Some(v) => WantedExport(v, tableOf))
  }

  /** What w leaves suits v. */
  predicate KeepsImport(v: VrfSpec, w: VrfSpec)
    requires w.netlinkImport.Some?
  {
    v.netlinkImport.None? ||
    (var d, e := v.netlinkImport.value, w.netlinkImport.value;
     d.enabled == e.enabled && (d.enabled ==> d.interfaces == e.interfaces))
  }

  predicate KeepsExport(v: VrfSpec, w: VrfSpec, tableOf: string -> int32)
    requires w.netlinkExport.Some?
  {
    v.netlinkExport.None? ||
    (var d, e := v.netlinkExport.value, w.netlinkExport.value;
     var linuxVrf := if e.linuxVrf == "" then w.name else e.linuxVrf;
     && d.enabled == e.enabled
     && (d.enabled ==>
          && d.linuxVrf in {"", linuxVrf}
          && d.linuxTableId in {0, if e.linuxTableId == 0 then tableOf(linuxVrf) else e.linuxTableId}
          && d.metric == e.metric && d.validateNexthop.GetOr(true) == e.validateNexthop.GetOr(true)
          && d.communities == e.communities && d.largeCommunities == e.largeCommunities))
  }

  /** After w's calls v needs none exactly when the two are compatible: for v itself always, through the
      defaults, the lookup and the polarity flip. */
  lemma VrfSettlesIff(v: VrfSpec, w: VrfSpec, tableOf: string -> int32)
    ensures w.netlinkImport.Some? ==> (VrfImportCalls(v, WantedImport(w)) == 0 <==> KeepsImport(v, w))
    ensures w.netlinkExport.Some? ==> (VrfExportCalls(v, WantedExport(w, tableOf)) == 0 <==> KeepsExport(v, w, tableOf))
    ensures v.netlinkImport.Some? ==> KeepsImport(v, v)
    ensures v.netlinkExport.Some? ==> KeepsExport(v, v, tableOf)
  {
  }

  /** Two entries for one VRF that can both be in order: wherever both state a field, they state the same. */
  predicate EntriesAgree(a: VrfSpec, b: VrfSpec) {
    && (a.netlinkImport.Some? && b.netlinkImport.Some? ==>
         var d, e := a.netlinkImport.value, b.netlinkImport.value;
         d.enabled == e.enabled && (d.enabled ==> d.interfaces == e.interfaces))
    && (a.netlinkExport.Some? && b.netlinkExport.Some? ==>
         var d, e := a.netlinkExport.value, b.netlinkExport.value;
         && d.enabled == e.enabled
         && (d.enabled ==>
              && (d.linuxVrf == "" || e.linuxVrf == "" || d.linuxVrf == e.linuxVrf)
              && (d.linuxTableId == 0 || e.linuxTableId == 0 || d.linuxTableId == e.linuxTableId)
              && d.metric == e.metric && d.validateNexthop.GetOr(true) == e.validateNexthop.GetOr(true)
              && d.communities == e.communities && d.largeCommunities == e.largeCommunities))
  }

  /** What is stated by either of two entries. */
  function Merged(a: VrfSpec, b: VrfSpec): Option<VrfExportConfig> {
    var e := if a.netlinkExport.Some? then a.netlinkExport else b.netlinkExport;
    var f := if b.netlinkExport.Some? then b.netlinkExport else a.netlinkExport;
    if e.None? || !e.value.enabled then None
    else Some(ToVrfExportConfig(e.value).(
                linuxVrf := if e.value.linuxVrf != "" then e.value.linuxVrf else f.value.linuxVrf,
                linuxTableId := if e.value.linuxTableId != 0 then e.value.linuxTableId else f.value.linuxTableId))
  }

  /** A state that the daemon reports after enabling c, or with no export. */
  function Enabled(name: string, imported: Import, c: Option<VrfExportConfig>, tableOf: string -> int32): VrfState {
    VrfState(imported, match c case None => None case Some(config) => Some(ReportedVrfExport(name, config, tableOf)))
  }

  /** Some state that an enable can leave needs no call for either of two entries of a VRF exactly when the two
      agree on every compared field; entries that disagree keep every pass writing. */
  lemma EntriesSettleTogetherIff(a: VrfSpec, b: VrfSpec, tableOf: string -> int32)
    requires a.name == b.name
    ensures (exists i, c :: VrfCalls(a, Enabled(a.name, i, c, tableOf)) + VrfCalls(b, Enabled(a.name, i, c, tableOf)) == 0)
            <==> EntriesAgree(a, b)
  {
    if EntriesAgree(a, b) {
      var i, c := WantedImport(if a.netlinkImport.Some? then a else b), Merged(a, b);
      assert VrfCalls(a, Enabled(a.name, i, c, tableOf)) + VrfCalls(b, Enabled(a.name, i, c, tableOf)) == 0;
    }
  }

  ghost predicate DistinctVrfs(vrfs: seq<VrfSpec>) {
    forall i, j :: 0 <= i < j < |vrfs| ==> vrfs[i].name != vrfs[j].name
  }

  /** The calls of a pass over the entries; entries for VRFs the daemon lacks are skipped. */
  function AllVrfCalls(vrfs: seq<VrfSpec>, states: map<string, VrfState>): nat {
    if vrfs == [] then 0
    else
      var v := vrfs[|vrfs| - 1];
      AllVrfCalls(vrfs[..|vrfs| - 1], states) + if v.name in states then VrfCalls(v, states[v.name]) else 0
  }

  lemma {:induction false} NoVrfCallsIff(vrfs: seq<VrfSpec>, states: map<string, VrfState>)
    ensures AllVrfCalls(vrfs, states) == 0 <==>
            forall i :: 0 <= i < |vrfs| && vrfs[i].name in states ==> VrfCalls(vrfs[i], states[vrfs[i].name]) == 0
  {
    if vrfs != [] {
      var n := |vrfs| - 1;
      NoVrfCallsIff(vrfs[..n], states);
      assert forall i :: 0 <= i < n ==> vrfs[..n][i] == vrfs[i];
    }
  }

  /** The VRFs after a pass without failures. */
  ghost predicate VrfPass(before: map<string, VrfState>, after: map<string, VrfState>, vrfs: seq<VrfSpec>, tableOf: string -> int32) {
    after.Keys == before.Keys && forall n :: n in before ==> after[n] == VrfAfter(vrfs, n, before[n], tableOf)
  }

  /** Every entry suits what the last due entry of its VRF, if any is due, leaves. */
  ghost predicate VrfsCompatible(vrfs: seq<VrfSpec>, states: map<string, VrfState>, tableOf: string -> int32) {
    forall i :: 0 <= i < |vrfs| && vrfs[i].name in states ==> EntryCompatible(vrfs[i], vrfs, states[vrfs[i].name], tableOf)
  }

  predicate EntryCompatible(v: VrfSpec, vrfs: seq<VrfSpec>, s: VrfState, tableOf: string -> int32) {
    var w, x := LastDueImport(vrfs, v.name, s.imported), LastDueExport(vrfs, v.name, s.exported);
    (w.None? || KeepsImport(v, w.value)) && (x.None? || KeepsExport(v, x.value, tableOf))
  }

  lemma EntrySettlesIff(v: VrfSpec, vrfs: seq<VrfSpec>, s: VrfState, tableOf: string -> int32)
    requires v in vrfs
    ensures VrfCalls(v, VrfAfter(vrfs, v.name, s, tableOf)) == 0 <==> EntryCompatible(v, vrfs, s, tableOf)
  {
    var w, x := LastDueImport(vrfs, v.name, s.imported), LastDueExport(vrfs, v.name, s.exported);
    if w.Some? {
      VrfSettlesIff(v, w.value, tableOf);
    }
    if x.Some? {
      VrfSettlesIff(v, x.value, tableOf);
    }
    hide VrfImportCalls, VrfExportCalls, KeepsImport, KeepsExport, WantedImport, WantedExport;
  }

  /** After a pass the VRFs need nothing more exactly when the entries were compatible. */
  lemma VrfsSettleIff(before: map<string, VrfState>, after: map<string, VrfState>, vrfs: seq<VrfSpec>, tableOf: string -> int32)
    requires VrfPass(before, after, vrfs, tableOf)
    ensures AllVrfCalls(vrfs, after) == 0 <==> VrfsCompatible(vrfs, before, tableOf)
  {
    NoVrfCallsIff(vrfs, after);
    forall i | 0 <= i < |vrfs| && vrfs[i].name in after
      ensures VrfCalls(vrfs[i], after[vrfs[i].name]) == 0 <==> EntryCompatible(vrfs[i], vrfs, before[vrfs[i].name], tableOf) {
      EntrySettlesIff(vrfs[i], vrfs, before[vrfs[i].name], tableOf);
    }
    hide VrfCalls, EntryCompatible, VrfAfter;
  }

  /** Distinct names are always compatible. */
  lemma DistinctVrfsAreCompatible(vrfs: seq<VrfSpec>, states: map<string, VrfState>, tableOf: string -> int32)
    requires DistinctVrfs(vrfs)
    ensures VrfsCompatible(vrfs, states, tableOf)
  {
    forall i | 0 <= i < |vrfs| && vrfs[i].name in states ensures EntryCompatible(vrfs[i], vrfs, states[vrfs[i].name], tableOf) {
      VrfSettlesIff(vrfs[i], vrfs[i], tableOf);
    }
  }

  // ---- the daemon ----

  class NetlinkDaemon {
    /** The routing table of each Linux VRF. */
    const tableOf: string -> int32
    var healthy: bool
    var imported: Import
    var exported: Export
    var vrfs: map<string, VrfState>
    /** Enable and Disable calls received. */
    var calls: nat

    constructor (tableOf: string -> int32)
      ensures this.tableOf == tableOf && vrfs == map[] && !imported.enabled && !exported.enabled
    {
      this.tableOf := tableOf;
      healthy, vrfs, calls := true, map[], 0;
      imported, exported := Import(false, "", []), Export(false, 0, 0, []);
    }

    /** Whether a call arrives, or is answered. */
    method Read() returns (ok: bool)
      ensures healthy ==> ok
    {
      var fault: bool := *;
      ok := healthy || !fault;
    }

    method SetImport(i: Import) returns (ok: bool)
      modifies this`imported, this`calls
      ensures healthy ==> ok
      ensures imported == i || (!ok && imported == old(imported))
      ensures calls == old(calls) + 1
    {
      calls := calls + 1;
      ok := Read();
      var arrived := Read();
      if ok || arrived {
        imported := i;
      }
    }

    method EnableNetlinkExport(spec: ExportSpec) returns (ok: bool)
      modifies this`exported, this`calls
      ensures healthy ==> ok
      ensures Exports(exported, spec) || (!ok && exported == old(exported))
      ensures calls == old(calls) + 1
    {
      calls := calls + 1;
      ok := Read();
      var arrived := Read();
      if ok || arrived {
        var rules := Shuffled(AllNormalized(spec.rules));
        exported := Export(true, if spec.dampeningInterval == 0 then DEFAULT_DAMPENING else spec.dampeningInterval,
                           if spec.routeProtocol == 0 then DEFAULT_PROTOCOL else spec.routeProtocol, rules);
      }
    }

    /** Any order of the rules. */
    method Shuffled(rules: seq<Rule>) returns (r: seq<Rule>)
      ensures multiset(r) == multiset(rules)
    {
      r := [];
      var left := rules;
      while left != []
        invariant multiset(r) + multiset(left) == multiset(rules)
        decreases |left|
      {
        var i :| 0 <= i < |left|;
        assert left == left[..i] + [left[i]] + left[i + 1..];
        r, left := r + [left[i]], left[..i] + left[i + 1..];
      }
    }

    method DisableNetlinkExport() returns (ok: bool)
      modifies this`exported, this`calls
      ensures healthy ==> ok
      ensures exported == old(exported).(enabled := false) || (!ok && exported == old(exported))
      ensures calls == old(calls) + 1
    {
      calls := calls + 1;
      ok := Read();
      var arrived := Read();
      if ok || arrived {
        exported := exported.(enabled := false);
      }
    }

    method SetVrfImport(vrf: string, i: Import) returns (ok: bool)
      modifies this`vrfs, this`calls
      ensures healthy && vrf in old(vrfs) ==> ok
      ensures ok ==> vrf in old(vrfs)
      ensures (!ok && vrfs == old(vrfs)) || (vrf in old(vrfs) && vrfs == old(vrfs)[vrf := old(vrfs)[vrf].(imported := i)])
      ensures calls == old(calls) + 1
    {
      calls := calls + 1;
      ok := Read();
      var arrived := Read();
      if vrf in vrfs && (ok || arrived) {
        vrfs := vrfs[vrf := vrfs[vrf].(imported := i)];
      } else {
        ok := false;
      }
    }

    method SetVrfExport(vrf: string, e: Option<VrfExport>) returns (ok: bool)
      modifies this`vrfs, this`calls
      ensures healthy && vrf in old(vrfs) ==> ok
      ensures ok ==> vrf in old(vrfs)
      ensures (!ok && vrfs == old(vrfs)) || (vrf in old(vrfs) && vrfs == old(vrfs)[vrf := old(vrfs)[vrf].(exported := e)])
      ensures calls == old(calls) + 1
    {
      calls := calls + 1;
      ok := Read();
      var arrived := Read();
      if vrf in vrfs && (ok || arrived) {
        vrfs := vrfs[vrf := vrfs[vrf].(exported := e)];
      } else {
        ok := false;
      }
    }

    /** EnableVrfNetlinkExport, which replaces what is there. */
    method EnableVrfNetlinkExport(vrf: string, c: VrfExportConfig) returns (ok: bool)
      modifies this`vrfs, this`calls
      ensures healthy && vrf in old(vrfs) ==> ok
      ensures ok ==> vrf in old(vrfs)
      ensures (!ok && vrfs == old(vrfs)) ||
              (vrf in old(vrfs) && vrfs == old(vrfs)[vrf := old(vrfs)[vrf].(exported := Some(ReportedVrfExport(vrf, c, tableOf)))])
      ensures calls == old(calls) + 1
    {
      ok := SetVrfExport(vrf, Some(ReportedVrfExport(vrf, c, tableOf)));
    }
  }

  // ---- the controller ----

  class NetlinkReconciler {
    const daemon: NetlinkDaemon

    constructor (daemon: NetlinkDaemon)
      ensures this.daemon == daemon
    {
      this.daemon := daemon;
    }

    method ReconcileImport(spec: Option<ImportSpec>) returns (ok: bool)
      modifies daemon`imported, daemon`calls
      ensures daemon.healthy ==> ok
      ensures daemon.calls == old(daemon.calls) + if NeedsImport(spec, old(daemon.imported)) then 1 else 0
      ensures ok ==> ImportInForce(daemon.imported, spec)
      ensures daemon.imported == old(daemon.imported) || ImportInForce(daemon.imported, spec)
    {
      ok := true;
      var current := daemon.imported;
      var desiredEnabled := spec.Some? && spec.value.enabled;
      var desiredInterfaces: seq<string>, desiredVrf := [], "";
      if spec.Some? {
        desiredInterfaces, desiredVrf := spec.value.interfaces, spec.value.vrf;
      }
      var needsUpdate := desiredEnabled != current.enabled;
      if desiredEnabled && desiredInterfaces != current.interfaces {
        needsUpdate := true;
      }
      if desiredEnabled && desiredVrf != current.vrf {
        needsUpdate := true;
      }
      if needsUpdate {
        if desiredEnabled {
          ok := daemon.SetImport(Import(true, desiredVrf, desiredInterfaces));
        } else if current.enabled {
          ok := daemon.SetImport(Import(false, "", []));
        }
      }
    }

    method ReconcileExport(spec: Option<ExportSpec>) returns (ok: bool)
      modifies daemon`exported, daemon`calls
      ensures daemon.calls <= old(daemon.calls) + if NeedsExport(spec, old(daemon.exported)) then 1 else 0
      ensures ok || daemon.exported != old(daemon.exported) ==>
        ExportPass(old(daemon.exported), daemon.exported, spec) && ExportInForce(daemon.exported, spec)
      ensures daemon.healthy ==>
        && ok
        && daemon.calls == old(daemon.calls) + if NeedsExport(spec, old(daemon.exported)) then 1 else 0
    {
      ok := true;
      var current := daemon.exported;
      var desiredEnabled := spec.Some? && spec.value.enabled;
      var needsUpdate := desiredEnabled != current.enabled;
      if desiredEnabled {
        if spec.value.dampeningInterval != 0 && spec.value.dampeningInterval != current.dampeningInterval {
          needsUpdate := true;
        }
        if spec.value.routeProtocol != 0 && spec.value.routeProtocol != current.routeProtocol {
          needsUpdate := true;
        }
      }
      if desiredEnabled && current.enabled && !needsUpdate {
        ok := daemon.Read();
        if !ok {
          return;
        }
        var same := NetlinkExportRulesMatch(daemon.exported.rules, spec.value.rules);
        if !same {
          needsUpdate := true;
        }
      }
      if needsUpdate {
        if desiredEnabled {
          ok := daemon.EnableNetlinkExport(spec.value);
        } else if current.enabled {
          ok := daemon.DisableNetlinkExport();
        }
      }
      if ok || daemon.exported != current {
        ExportPassInForce(current, daemon.exported, spec);
      }
    }

    /** The import half of a turn, against the import read before the first turn. */
    method ReconcileVrfImport(v: VrfSpec, current: Import) returns (ok: bool)
      requires v.name in daemon.vrfs
      modifies daemon`vrfs, daemon`calls
      ensures v.name in daemon.vrfs && daemon.vrfs == old(daemon.vrfs)[v.name := daemon.vrfs[v.name]]
      ensures daemon.healthy ==>
        var s := old(daemon.vrfs)[v.name];
        && ok && daemon.vrfs[v.name] == s.(imported := if VrfImportCalls(v, current) == 0 then s.imported else WantedImport(v))
        && daemon.calls == old(daemon.calls) + VrfImportCalls(v, current)
    {
      ok := true;
      if v.netlinkImport.None? {
        return;
      }
      var desired := v.netlinkImport.value;
      if desired.enabled != current.enabled {
        ok := daemon.SetVrfImport(v.name, if desired.enabled then Import(true, "", desired.interfaces) else Import(false, "", []));
      } else if desired.enabled && desired.interfaces != current.interfaces {
        ok := daemon.SetVrfImport(v.name, Import(false, "", []));
        if ok {
          ok := daemon.SetVrfImport(v.name, Import(true, "", desired.interfaces));
        }
      }
    }

    method ReconcileVrfExport(v: VrfSpec, current: Option<VrfExport>) returns (ok: bool)
      requires v.name in daemon.vrfs
      modifies daemon`vrfs, daemon`calls
      ensures v.name in daemon.vrfs && daemon.vrfs == old(daemon.vrfs)[v.name := daemon.vrfs[v.name]]
      ensures daemon.healthy ==>
        var s := old(daemon.vrfs)[v.name];
        && ok && daemon.vrfs[v.name]
                 == s.(exported := if VrfExportCalls(v, current) == 0 then s.exported else WantedExport(v, daemon.tableOf))
        && daemon.calls == old(daemon.calls) + VrfExportCalls(v, current)
    {
      ok := true;
      if v.netlinkExport.Some? && v.netlinkExport.value.enabled {
        if current.Some? && VrfExportEqual(v.netlinkExport.value, current.value) {
          return;
        }
        ok := daemon.EnableVrfNetlinkExport(v.name, ToVrfExportConfig(v.netlinkExport.value));
      } else if v.netlinkExport.Some? && current.Some? {
        // An error here is ignored.
        var _ := daemon.SetVrfExport(v.name, None);
      }
    }

    /** One entry's turn, on top of the earlier ones. */
    lemma VrfTurn(before: map<string, VrfState>, mid: map<string, VrfState>, after: map<string, VrfState>, vrfs: seq<VrfSpec>, i: nat)
      requires i < |vrfs| && VrfPass(before, mid, vrfs[..i], daemon.tableOf)
      requires after.Keys == mid.Keys && forall n :: n in mid && n != vrfs[i].name ==> after[n] == mid[n]
      requires vrfs[i].name in before ==>
        var v, s, t := vrfs[i], before[vrfs[i].name], mid[vrfs[i].name];
        after[v.name] == VrfState(if VrfImportCalls(v, s.imported) == 0 then t.imported else WantedImport(v),
                                  if VrfExportCalls(v, s.exported) == 0 then t.exported else WantedExport(v, daemon.tableOf))
      ensures VrfPass(before, after, vrfs[..i + 1], daemon.tableOf)
    {
      hide VrfImportCalls, VrfExportCalls, WantedImport, WantedExport, VrfAfter;
      forall n | n in before ensures after[n] == VrfAfter(vrfs[..i + 1], n, before[n], daemon.tableOf) {
        VrfAfterOneMore(vrfs, i, n, before[n], daemon.tableOf);
      }
    }

    lemma VrfAfterOneMore(vrfs: seq<VrfSpec>, i: nat, n: string, s: VrfState, tableOf: string -> int32)
      requires i < |vrfs|
      ensures var v, t := vrfs[i], VrfAfter(vrfs[..i], n, s, tableOf);
        VrfAfter(vrfs[..i + 1], n, s, tableOf) ==
          if v.name != n then t
          else VrfState(if VrfImportCalls(v, s.imported) == 0 then t.imported else WantedImport(v),
                        if VrfExportCalls(v, s.exported) == 0 then t.exported else WantedExport(v, tableOf))
    {
      hide VrfImportCalls, VrfExportCalls, WantedImport, WantedExport;
      assert vrfs[..i + 1][..i] == vrfs[..i];
    }

    lemma NoTurns(states: map<string, VrfState>, tableOf: string -> int32)
      ensures VrfPass(states, states, [], tableOf) && AllVrfCalls([], states) == 0
    {
    }

    lemma OneMoreTurn(vrfs: seq<VrfSpec>, i: nat, states: map<string, VrfState>)
      requires i < |vrfs|
      ensures AllVrfCalls(vrfs[..i + 1], states)
              == AllVrfCalls(vrfs[..i], states) + if vrfs[i].name in states then VrfCalls(vrfs[i], states[vrfs[i].name]) else 0
    {
      assert vrfs[..i + 1][..i] == vrfs[..i];
    }

    /** reconcileVrfNetlink, against the states read before the first turn. */
    method ReconcileVrfNetlink(vrfs: seq<VrfSpec>) returns (ok: bool)
      modifies daemon`vrfs, daemon`calls
      ensures daemon.vrfs.Keys == old(daemon.vrfs.Keys) && OthersKept(vrfs, old(daemon.vrfs), daemon.vrfs)
      ensures daemon.healthy ==>
        && ok && daemon.calls == old(daemon.calls) + AllVrfCalls(vrfs, old(daemon.vrfs))
        && VrfPass(old(daemon.vrfs), daemon.vrfs, vrfs, daemon.tableOf)
        && (AllVrfsInForce(vrfs, daemon.vrfs) <==> VrfsCompatible(vrfs, old(daemon.vrfs), daemon.tableOf))
    {
      hide VrfPass, AllVrfCalls, VrfImportCalls, VrfExportCalls, WantedImport, WantedExport, AllVrfsInForce, VrfsCompatible, OthersKept;
      var current := daemon.vrfs;
      NoneTouched(vrfs, current);
      ok := daemon.Read();
      if !ok {
        return;
      }
      var listed := daemon.Read();
      NoTurns(current, daemon.tableOf);
      for i := 0 to |vrfs|
        invariant ok && (daemon.healthy ==> listed)
        invariant daemon.vrfs.Keys == current.Keys && OthersKept(vrfs, current, daemon.vrfs)
        invariant daemon.healthy ==> VrfPass(current, daemon.vrfs, vrfs[..i], daemon.tableOf)
        invariant daemon.healthy ==> daemon.calls == old(daemon.calls) + AllVrfCalls(vrfs[..i], current)
      {
        ghost var mid := daemon.vrfs;
        OneMoreTurn(vrfs, i, current);
        if vrfs[i].name in current {
          var s := current[vrfs[i].name];
          ok := ReconcileVrfImport(vrfs[i], s.imported);
          NamedTouched(vrfs, i, current, mid, daemon.vrfs[vrfs[i].name]);
          ghost var imported := daemon.vrfs;
          if !ok {
            return;
          }
          ok := ReconcileVrfExport(vrfs[i], if listed then s.exported else None);
          NamedTouched(vrfs, i, current, imported, daemon.vrfs[vrfs[i].name]);
          if !ok {
            return;
          }
        }
        if daemon.healthy {
          VrfTurn(current, mid, daemon.vrfs, vrfs, i);
        }
      }
      assert vrfs[..|vrfs|] == vrfs;
      if daemon.healthy {
        VrfsSettleIff(current, daemon.vrfs, vrfs, daemon.tableOf);
        AllQuietIffInForce(vrfs, daemon.vrfs);
      }
    }

    /** reconcileNetlink. Without failures the import and export in force are those the spec states, those of the
        VRFs exactly when their entries are compatible, and no call is issued for what was in order. */
    method ReconcileNetlink(spec: NetlinkSpec) returns (ok: bool)
      modifies daemon`imported, daemon`exported, daemon`vrfs, daemon`calls
      ensures ok ==> ImportInForce(daemon.imported, spec.netlinkImport) && ExportInForce(daemon.exported, spec.netlinkExport)
      ensures daemon.imported == old(daemon.imported) || ImportInForce(daemon.imported, spec.netlinkImport)
      ensures daemon.exported == old(daemon.exported) || ExportInForce(daemon.exported, spec.netlinkExport)
      ensures OthersKept(spec.vrfs, old(daemon.vrfs), daemon.vrfs)
      ensures daemon.healthy ==>
        && ok && ExportPass(old(daemon.exported), daemon.exported, spec.netlinkExport)
        && (AllVrfsInForce(spec.vrfs, daemon.vrfs) <==> VrfsCompatible(spec.vrfs, old(daemon.vrfs), daemon.tableOf))
        && VrfPass(old(daemon.vrfs), daemon.vrfs, spec.vrfs, daemon.tableOf)
        && daemon.calls == old(daemon.calls)
                           + (if NeedsImport(spec.netlinkImport, old(daemon.imported)) then 1 else 0)
                           + (if NeedsExport(spec.netlinkExport, old(daemon.exported)) then 1 else 0)
                           + AllVrfCalls(spec.vrfs, old(daemon.vrfs))
    {
      hide VrfPass, ExportPass, NeedsImport, NeedsExport, AllVrfCalls, ImportInForce, ExportInForce, AllVrfsInForce, VrfsCompatible, OthersKept;
      NoneTouched(spec.vrfs, daemon.vrfs);
      ok := daemon.Read();
      if !ok {
        return;
      }
      ok := ReconcileImport(spec.netlinkImport);
      if !ok {
        return;
      }
      ok := ReconcileExport(spec.netlinkExport);
      if !ok {
        return;
      }
      ok := ReconcileVrfNetlink(spec.vrfs);
    }

    /** Two passes without failures: the second one issues no call exactly when the first did not have to enable
        an export whose rules repeat a name with different contents, and the VRF entries are compatible. */
    method ReconcileNetlinkTwice(spec: NetlinkSpec) returns (second: nat)
      requires daemon.healthy
      modifies daemon`imported, daemon`exported, daemon`vrfs, daemon`calls
      ensures second == 0 <==>
        && (spec.netlinkExport.Some? && spec.netlinkExport.value.enabled && NeedsExport(spec.netlinkExport, old(daemon.exported))
            ==> NamesAgree(spec.netlinkExport.value.rules))
        && VrfsCompatible(spec.vrfs, old(daemon.vrfs), daemon.tableOf)
      ensures DistinctVrfs(spec.vrfs) ==> VrfsCompatible(spec.vrfs, old(daemon.vrfs), daemon.tableOf)
    {
      hide VrfPass, ExportPass, NeedsImport, NeedsExport, AllVrfCalls, DistinctVrfs, NamesAgree, VrfsCompatible,
           ImportInForce, ExportInForce, AllVrfsInForce, OthersKept;
      ghost var exported, vrfs := daemon.exported, daemon.vrfs;
      if DistinctVrfs(spec.vrfs) {
        DistinctVrfsAreCompatible(spec.vrfs, vrfs, daemon.tableOf);
      }
      var _ := ReconcileNetlink(spec);
      ExportSettlesIff(exported, daemon.exported, spec.netlinkExport);
      VrfsSettleIff(vrfs, daemon.vrfs, spec.vrfs, daemon.tableOf);
      ImportQuietIffInForce(spec.netlinkImport, daemon.imported);
      var first := daemon.calls;
      var _ := ReconcileNetlink(spec);
      second := daemon.calls - first;
    }
  }
}
