/** The gobgp API messages the controller exchanges with the daemon, restricted to the fields that
    are sent, reported or compared. A nil sub-message is None; a plain field carries its zero value. */
module Messages {
  import opened Wrappers

  type uint32 = x: int | 0 <= x < 0x1_0000_0000
  type uint64 = x: int | 0 <= x < 0x1_0000_0000_0000_0000

  datatype RouteAction = ActionUnspecified | Accept | Reject
  datatype RemovePrivate = RemoveUnspecified | RemoveAll | RemoveReplace
  datatype Direction = DirectionUnspecified | DirectionImport | DirectionExport

  datatype Family = Family(afi: uint32, safi: uint32)
  datatype AfiSafiConfig = AfiSafiConfig(family: Option<Family>, enabled: bool)
  datatype PrefixLimit = PrefixLimit(maxPrefixes: uint32, shutdownThresholdPct: uint32)
  datatype AddPaths = AddPaths(receive: bool, sendMax: uint32)
  datatype AfiSafi = AfiSafi(config: Option<AfiSafiConfig>,
                             prefixLimit: Option<PrefixLimit>, addPaths: Option<AddPaths>)

  datatype PolicyAssignment = PolicyAssignment(name: string, direction: Direction,
                                               defaultAction: RouteAction, policies: seq<string>)
  datatype ApplyPolicy = ApplyPolicy(importPolicy: Option<PolicyAssignment>, exportPolicy: Option<PolicyAssignment>)

  datatype TimersConfig = TimersConfig(connectRetry: uint64, holdTime: uint64, keepaliveInterval: uint64)
  datatype Timers = Timers(config: Option<TimersConfig>)

  datatype Transport = Transport(localAddress: string, passiveMode: bool, bindInterface: string, ipTos: uint32)

  datatype GracefulRestart = GracefulRestart(enabled: bool, restartTime: uint32,
                                             staleRoutesTime: uint32, helperOnly: bool)
  datatype RouteReflector = RouteReflector(client: bool, clusterId: string)
  datatype EbgpMultihop = EbgpMultihop(enabled: bool, ttl: uint32)
  datatype Bfd = Bfd(enabled: bool, port: uint32, desiredMinimumTxInterval: uint32,
                     requiredMinimumReceive: uint32, detectionMultiplier: uint32)

  /** PeerState: of the runtime state, only what the controller reads. */
  datatype PeerState = PeerState(authPasswordSet: bool)

  datatype PeerConf = PeerConf(
    neighborAddress: string, neighborInterface: string, peerAsn: uint32, peerGroup: string,
    adminDown: bool, vrf: string,
    localAsn: Option<uint32>, description: Option<string>, authPassword: Option<string>,
    allowOwnAsn: Option<uint32>, replacePeerAsn: Option<bool>, allowAspathLoopLocal: Option<bool>,
    removePrivate: Option<RemovePrivate>, sendSoftwareVersion: Option<bool>, sendCommunity: Option<uint32>)

  datatype Peer = Peer(
    conf: PeerConf, afiSafis: seq<AfiSafi>, applyPolicy: Option<ApplyPolicy>, timers: Option<Timers>,
    transport: Option<Transport>, gracefulRestart: Option<GracefulRestart>,
    routeReflector: Option<RouteReflector>, ebgpMultihop: Option<EbgpMultihop>, bfd: Option<Bfd>,
    state: Option<PeerState>)

  /** A peer group is only a source of values and never inherits, so its fields carry no presence. */
  datatype PeerGroupConf = PeerGroupConf(
    peerGroupName: string, peerAsn: uint32, localAsn: uint32, description: string, authPassword: string,
    allowOwnAsn: uint32, replacePeerAsn: bool, allowAspathLoopLocal: bool,
    removePrivate: RemovePrivate, sendSoftwareVersion: bool, sendCommunity: Option<uint32>)

  datatype PeerGroup = PeerGroup(
    conf: PeerGroupConf, afiSafis: seq<AfiSafi>, applyPolicy: Option<ApplyPolicy>, timers: Option<Timers>,
    transport: Option<Transport>, gracefulRestart: Option<GracefulRestart>, bfd: Option<Bfd>)

  const ZERO_POLICY := PolicyAssignment("", DirectionUnspecified, ActionUnspecified, [])
  const ZERO_APPLY := ApplyPolicy(None, None)
  const ZERO_TIMERS := TimersConfig(0, 0, 0)
  const ZERO_TRANSPORT := Transport("", false, "", 0)
  const ZERO_GRACEFUL := GracefulRestart(false, 0, 0, false)
  const ZERO_REFLECTOR := RouteReflector(false, "")
  const ZERO_MULTIHOP := EbgpMultihop(false, 0)
  const ZERO_BFD := Bfd(false, 0, 0, 0, 0)

  /** GetTimers().GetConfig(), through either nil. */
  function TimersOf(timers: Option<Timers>): TimersConfig {
    timers.GetOr(Timers(None)).config.GetOr(ZERO_TIMERS)
  }

  function ImportOf(apply: Option<ApplyPolicy>): PolicyAssignment {
    apply.GetOr(ZERO_APPLY).importPolicy.GetOr(ZERO_POLICY)
  }

  function ExportOf(apply: Option<ApplyPolicy>): PolicyAssignment {
    apply.GetOr(ZERO_APPLY).exportPolicy.GetOr(ZERO_POLICY)
  }

  /** The key under which the controller and the daemon know a peer: gobgpd resolves the address of an
      interface peer by itself, so such a peer is keyed by its interface. */
  function NeighborKey(address: string, iface: string): string {
    if iface != "" then "iface:" + iface else address
  }

  function PeerKey(conf: PeerConf): string {
    NeighborKey(conf.neighborAddress, conf.neighborInterface)
  }
}
