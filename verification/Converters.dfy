/** The custom resource's neighbor and peer group types, and their conversion to API messages. */
module Converters {
  import opened Wrappers
  import opened Messages

  // ---- custom resource types; an omitted optional block is None ----

  datatype SecretRef = SecretRef(name: string, key: string)

  /** The family is kept as the API pair it names; the name table is not part of this model. */
  datatype AfiSafiSpec = AfiSafiSpec(family: Family, enabled: bool,
                                     prefixLimit: Option<PrefixLimit>, addPaths: Option<AddPaths>)
  datatype PolicyAssignmentSpec = PolicyAssignmentSpec(name: string, policies: seq<string>, defaultAction: RouteAction)
  datatype ApplyPolicySpec = ApplyPolicySpec(exportPolicy: Option<PolicyAssignmentSpec>,
                                             importPolicy: Option<PolicyAssignmentSpec>)
  datatype BfdSpec = BfdSpec(enabled: Option<bool>, port: uint32, desiredMinimumTxInterval: uint32,
                             requiredMinimumReceive: uint32, detectionMultiplier: uint32)

  datatype NeighborConfig = NeighborConfig(
    neighborAddress: string, neighborInterface: string, peerAsn: uint32, peerGroup: string,
    adminDown: bool, vrf: string, localAsn: uint32, description: Option<string>,
    authPassword: Option<string>, authPasswordSecretRef: Option<SecretRef>,
    allowOwnAsn: Option<uint32>, replacePeerAsn: Option<bool>, allowAspathLoopLocal: Option<bool>,
    removePrivate: string, sendSoftwareVersion: Option<bool>, sendCommunity: string)

  datatype Neighbor = Neighbor(
    config: NeighborConfig, nodeSelector: Option<string>, afiSafis: seq<AfiSafiSpec>,
    applyPolicy: Option<ApplyPolicySpec>, timers: Option<TimersConfig>, transport: Option<Transport>,
    gracefulRestart: Option<GracefulRestart>, routeReflector: Option<RouteReflector>,
    ebgpMultihop: Option<EbgpMultihop>, bfd: Option<BfdSpec>)

  datatype PeerGroupConfig = PeerGroupConfig(
    peerGroupName: string, description: string, peerAsn: uint32, localAsn: uint32,
    authPassword: string, authPasswordSecretRef: Option<SecretRef>,
    allowOwnAsn: uint32, replacePeerAsn: bool, allowAspathLoopLocal: bool,
    sendCommunity: string, removePrivate: string, sendSoftwareVersion: bool)

  datatype PeerGroupSpec = PeerGroupSpec(
    config: PeerGroupConfig, nodeSelector: Option<string>, afiSafis: seq<AfiSafiSpec>,
    applyPolicy: Option<ApplyPolicySpec>, timers: Option<TimersConfig>, transport: Option<Transport>,
    gracefulRestart: Option<GracefulRestart>, bfd: Option<BfdSpec>)

  // ---- conversion ----

  /** neighborKeyFromCRD. */
  function KeyFromConfig(c: NeighborConfig): string {
    NeighborKey(c.neighborAddress, c.neighborInterface)
  }

  /** nil for the zero value, so that a peer group can still supply the field. */
  function SomeIfSet(v: uint32): Option<uint32> {
    if v == 0 then None else Some(v)
  }

  /** An unrecognised name, like an omitted one, is not sent at all. */
  function SendCommunityOrdinal(name: string): (r: Option<uint32>)
    ensures r.Some? ==> r.value < 4
  {
    if name == "standard" then Some(0)
    else if name == "extended" then Some(1)
    else if name == "both" then Some(2)
    else if name == "none" then Some(3)
    else None
  }

  function RemovePrivateOf(name: string): RemovePrivate {
    if name == "all" then RemoveAll else if name == "replace" then RemoveReplace else RemoveUnspecified
  }

  function RemovePrivatePresence(name: string): Option<RemovePrivate> {
    if RemovePrivateOf(name) == RemoveUnspecified then None else Some(RemovePrivateOf(name))
  }

  function ToAfiSafis(specs: seq<AfiSafiSpec>): (r: seq<AfiSafi>)
    ensures |r| == |specs|
  {
    seq(|specs|, i requires 0 <= i < |specs| =>
      AfiSafi(Some(AfiSafiConfig(Some(specs[i].family), specs[i].enabled)), specs[i].prefixLimit, specs[i].addPaths))
  }

  /** Name is sent and Direction never is; the daemon reports exactly the opposite. */
  function ToPolicyAssignment(spec: Option<PolicyAssignmentSpec>): Option<PolicyAssignment> {
    match spec
    case None => None
    case Some(p) => Some(PolicyAssignment(p.name, DirectionUnspecified, p.defaultAction, p.policies))
  }

  function ToApplyPolicy(spec: Option<ApplyPolicySpec>): Option<ApplyPolicy> {
    match spec
    case None => None
    case Some(a) => Some(ApplyPolicy(ToPolicyAssignment(a.importPolicy), ToPolicyAssignment(a.exportPolicy)))
  }

  function ToTimers(spec: Option<TimersConfig>): Option<Timers> {
    match spec
    case None => None
    case Some(t) => Some(Timers(Some(t)))
  }

  function ToBfd(spec: Option<BfdSpec>): Option<Bfd> {
    match spec
    case None => None
    case Some(b) => Some(Bfd(b.enabled.GetOr(false), b.port, b.desiredMinimumTxInterval,
                             b.requiredMinimumReceive, b.detectionMultiplier))
  }

  /** crdToAPINeighborWithPassword. */
  function ToPeer(n: Neighbor, authPassword: Option<string>): Peer {
    var c := n.config;
    Peer(
      PeerConf(c.neighborAddress, c.neighborInterface, c.peerAsn, c.peerGroup, c.adminDown, c.vrf,
               SomeIfSet(c.localAsn), c.description, authPassword,
               c.allowOwnAsn, c.replacePeerAsn, c.allowAspathLoopLocal,
               RemovePrivatePresence(c.removePrivate), c.sendSoftwareVersion,
               SendCommunityOrdinal(c.sendCommunity)),
      ToAfiSafis(n.afiSafis), ToApplyPolicy(n.applyPolicy), ToTimers(n.timers), n.transport,
      n.gracefulRestart, n.routeReflector, n.ebgpMultihop, ToBfd(n.bfd), None)
  }

  /** crdToAPIPeerGroupWithPassword. */
  function ToPeerGroup(g: PeerGroupSpec, authPassword: string): PeerGroup {
    var c := g.config;
    PeerGroup(
      PeerGroupConf(c.peerGroupName, c.peerAsn, c.localAsn, c.description, authPassword,
                    c.allowOwnAsn, c.replacePeerAsn, c.allowAspathLoopLocal,
                    RemovePrivateOf(c.removePrivate), c.sendSoftwareVersion,
                    SendCommunityOrdinal(c.sendCommunity)),
      ToAfiSafis(g.afiSafis), ToApplyPolicy(g.applyPolicy), ToTimers(g.timers), g.transport,
      g.gracefulRestart, ToBfd(g.bfd))
  }

  // ---- what surrounds the controller ----

  datatype SelectorOutcome = Matches | Differs | LookupFailed

  /** Node label selection and the Secrets of the namespace, as the API server answers for them;
      contains(prefix, address) is prefix containment of a parseable address, false for a malformed prefix. */
  datatype World = World(selects: string -> SelectorOutcome,
                         secrets: map<string, map<string, string>>,
                         contains: (string, string) -> bool)

  /** A named Secret wins over the inline password; a missing Secret or key is an error.
      None, unlike Some(""), leaves the password to the peer group. */
  function ResolveAuthPassword(inline: Option<string>, ref: Option<SecretRef>, world: World): Result<Option<string>> {
    if ref.Some? && ref.value.name != "" then
      if ref.value.name in world.secrets && ref.value.key in world.secrets[ref.value.name]
      then Ok(Some(world.secrets[ref.value.name][ref.value.key]))
      else Err
    else Ok(inline)
  }
}
