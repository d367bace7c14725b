/** The comparators that decide whether an update is issued: desired is what the controller would send,
    current is what the daemon reports. */
module Comparators {
  import opened Wrappers
  import opened Messages

  predicate AfiSafiEqual(d: AfiSafi, c: AfiSafi) {
    if d.config.None? || c.config.None? then d.config == c.config
    else if d.config.value.family.None? || c.config.value.family.None? then
      d.config.value.family == c.config.value.family
    else d.config.value == c.config.value
  }

  /** Compared only when the desired list states something; prefix limits and add-paths are not compared. */
  predicate AfiSafisEqual(desired: seq<AfiSafi>, current: seq<AfiSafi>) {
    |desired| == 0 ||
    (|desired| == |current| && forall i :: 0 <= i < |desired| ==> AfiSafiEqual(desired[i], current[i]))
  }

  predicate TimersEqual(desired: Option<Timers>, current: Option<Timers>) {
    var d, c := TimersOf(desired), TimersOf(current);
    && (d.connectRetry == 0 || d.connectRetry == c.connectRetry)
    && (d.holdTime == 0 || d.holdTime == c.holdTime)
    && (d.keepaliveInterval == 0 || d.keepaliveInterval == c.keepaliveInterval)
  }

  predicate TransportEqual(desired: Option<Transport>, current: Option<Transport>) {
    var d, c := desired.GetOr(ZERO_TRANSPORT), current.GetOr(ZERO_TRANSPORT);
    && (d.localAddress == "" || d.localAddress == c.localAddress)
    && d.passiveMode == c.passiveMode && d.bindInterface == c.bindInterface && d.ipTos == c.ipTos
  }

  predicate PolicyAssignmentEqual(d: PolicyAssignment, c: PolicyAssignment) {
    d.defaultAction == c.defaultAction && d.policies == c.policies
  }

  predicate ApplyPolicyEqual(desired: Option<ApplyPolicy>, current: Option<ApplyPolicy>) {
    PolicyAssignmentEqual(ImportOf(desired), ImportOf(current)) &&
    PolicyAssignmentEqual(ExportOf(desired), ExportOf(current))
  }

  predicate GracefulRestartEqual(desired: Option<GracefulRestart>, current: Option<GracefulRestart>) {
    var d, c := desired.GetOr(ZERO_GRACEFUL), current.GetOr(ZERO_GRACEFUL);
    && d.enabled == c.enabled && d.helperOnly == c.helperOnly
    && (d.restartTime == 0 || d.restartTime == c.restartTime)
    && d.staleRoutesTime == c.staleRoutesTime
  }

  predicate RouteReflectorEqual(desired: Option<RouteReflector>, current: Option<RouteReflector>) {
    var d, c := desired.GetOr(ZERO_REFLECTOR), current.GetOr(ZERO_REFLECTOR);
    && (d.clusterId == "" || d.clusterId == c.clusterId)
    && d.client == c.client
  }

  predicate EbgpMultihopEqual(desired: Option<EbgpMultihop>, current: Option<EbgpMultihop>) {
    desired.GetOr(ZERO_MULTIHOP) == current.GetOr(ZERO_MULTIHOP)
  }

  /** bfdWithDefaults: the comparator's own copy of the daemon's defaults. */
  function BfdWithDefaults(b: Option<Bfd>): Bfd {
    var c := b.GetOr(ZERO_BFD);
    Bfd(c.enabled,
        if c.port == 0 then 3784 else c.port,
        if c.desiredMinimumTxInterval == 0 then 1000000 else c.desiredMinimumTxInterval,
        if c.requiredMinimumReceive == 0 then 1000000 else c.requiredMinimumReceive,
        if c.detectionMultiplier == 0 then 3 else c.detectionMultiplier)
  }

  predicate BfdEqual(desired: Option<Bfd>, current: Option<Bfd>, defaulted: bool) {
    if defaulted then BfdWithDefaults(desired) == BfdWithDefaults(current)
    else desired.GetOr(ZERO_BFD) == current.GetOr(ZERO_BFD)
  }

  /** A nil desired value is "not stated"; a nil current one is genuine absence. */
  predicate SendCommunityEqual(desired: Option<uint32>, current: Option<uint32>) {
    desired.None? || (current.Some? && desired.value == current.value)
  }

  predicate ConfEqual(d: PeerConf, c: PeerConf) {
    && (d.neighborInterface != "" || d.neighborAddress == c.neighborAddress)
    && (d.localAsn.GetOr(0) == 0 || d.localAsn.GetOr(0) == c.localAsn.GetOr(0))
    && (d.peerGroup != "" || d.peerAsn == c.peerAsn)
    && (d.description.None? || d.description.value == c.description.GetOr(""))
    && d.peerGroup == c.peerGroup && d.adminDown == c.adminDown
    && d.neighborInterface == c.neighborInterface && d.vrf == c.vrf
    && (d.allowOwnAsn.None? || d.allowOwnAsn.value == c.allowOwnAsn.GetOr(0))
    && (d.replacePeerAsn.None? || d.replacePeerAsn.value == c.replacePeerAsn.GetOr(false))
    && (d.allowAspathLoopLocal.None? || d.allowAspathLoopLocal.value == c.allowAspathLoopLocal.GetOr(false))
    && (d.sendSoftwareVersion.None? || d.sendSoftwareVersion.value == c.sendSoftwareVersion.GetOr(false))
    && (d.removePrivate.None? || d.removePrivate.value == c.removePrivate.GetOr(RemoveUnspecified))
    && SendCommunityEqual(d.sendCommunity, c.sendCommunity)
  }

  /** peerConfigEqual. A grouped peer skips every block it leaves to its group. */
  predicate PeerConfigEqual(desired: Peer, current: Peer) {
    var grouped := desired.conf.peerGroup != "";
    && ConfEqual(desired.conf, current.conf)
    && AfiSafisEqual(desired.afiSafis, current.afiSafis)
    && ((grouped && desired.applyPolicy.None?) || ApplyPolicyEqual(desired.applyPolicy, current.applyPolicy))
    && TimersEqual(desired.timers, current.timers)
    && ((grouped && desired.transport.None?) || TransportEqual(desired.transport, current.transport))
    && ((grouped && desired.gracefulRestart.None?) || GracefulRestartEqual(desired.gracefulRestart, current.gracefulRestart))
    && ((grouped && desired.routeReflector.None?) || RouteReflectorEqual(desired.routeReflector, current.routeReflector))
    && ((grouped && desired.ebgpMultihop.None?) || EbgpMultihopEqual(desired.ebgpMultihop, current.ebgpMultihop))
    && ((grouped && desired.bfd.None?) || BfdEqual(desired.bfd, current.bfd, true))
  }

  /** authPasswordDrifted: presence only, because the value is redacted on the way back. */
  predicate AuthPasswordDrifted(desired: Peer, current: Peer) {
    desired.conf.authPassword.Some? &&
    (desired.conf.authPassword.value != "") != current.state.GetOr(PeerState(false)).authPasswordSet
  }

  /** The condition under which reconcileNeighbors issues an UpdatePeer. */
  predicate NeedsUpdate(desired: Peer, current: Peer) {
    !PeerConfigEqual(desired, current) || AuthPasswordDrifted(desired, current)
  }

  /** peerGroupConfigEqual. */
  predicate PeerGroupConfigEqual(desired: PeerGroup, current: PeerGroup) {
    var d, c := desired.conf, current.conf;
    && (d.localAsn == 0 || d.localAsn == c.localAsn)
    && d.peerGroupName == c.peerGroupName && d.peerAsn == c.peerAsn && d.description == c.description
    && d.allowOwnAsn == c.allowOwnAsn && d.replacePeerAsn == c.replacePeerAsn
    && d.allowAspathLoopLocal == c.allowAspathLoopLocal && d.sendSoftwareVersion == c.sendSoftwareVersion
    && d.removePrivate == c.removePrivate
    && SendCommunityEqual(d.sendCommunity, c.sendCommunity)
    && AfiSafisEqual(desired.afiSafis, current.afiSafis)
    && ApplyPolicyEqual(desired.applyPolicy, current.applyPolicy)
    && TimersEqual(desired.timers, current.timers)
    && TransportEqual(desired.transport, current.transport)
    && GracefulRestartEqual(desired.gracefulRestart, current.gracefulRestart)
    && BfdEqual(desired.bfd, current.bfd, false)
  }

  /** The peer-group blocks a status can name, in the order inheritedBlocks sorts them. */
  datatype Block = AfiSafisBlock | ApplyPolicyBlock | BfdBlock | GracefulRestartBlock | TimersBlock | TransportBlock

  /** inheritedBlocks. */
  function InheritedBlocks(desired: Peer): seq<Block> {
    if desired.conf.peerGroup == "" then []
    else
      (if desired.afiSafis == [] then [AfiSafisBlock] else []) +
      (if desired.applyPolicy.None? then [ApplyPolicyBlock] else []) +
      (if desired.bfd.None? then [BfdBlock] else []) +
      (if desired.gracefulRestart.None? then [GracefulRestartBlock] else []) +
      (if desired.timers.None? then [TimersBlock] else []) +
      (if desired.transport.None? then [TransportBlock] else [])
  }

  /** Every value the daemon has an encoding for; the converters produce nothing else. */
  predicate Encodable(sendCommunity: Option<uint32>) {
    sendCommunity.Some? ==> sendCommunity.value < 4
  }
}
