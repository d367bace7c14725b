/** What gobgpd reports for what it was sent: peer-group inheritance, defaulting, derivation, redaction.
    A peer owns a block exactly when the message it was sent carries one. */
module Echo {
  import opened Wrappers
  import opened Messages

  const BFD_DEFAULT_PORT: uint32 := 3784
  const BFD_DEFAULT_INTERVAL: uint32 := 1000000
  const BFD_DEFAULT_MULTIPLIER: uint32 := 3

  /** The daemon's defaults, kept symbolic: the controller does not know them. localAddress and clusterId
      are what is rendered for an unset address, linkLocal what an interface peer resolves to. */
  datatype Defaults = Defaults(globalAsn: uint32, connectRetry: uint64, holdTime: uint64, keepaliveInterval: uint64,
                               families: seq<AfiSafi>, localAddress: string, clusterId: string,
                               derivedClusterId: string, linkLocal: string -> string)

  /** The group of a peer that has none: it states nothing. */
  const NO_GROUP := PeerGroup(
    PeerGroupConf("", 0, 0, "", "", 0, false, false, RemoveUnspecified, false, None),
    [], None, None, None, None, None)

  function GroupOf(groups: map<string, PeerGroup>, name: string): PeerGroup {
    if name != "" && name in groups then groups[name] else NO_GROUP
  }

  function Inherit<T>(own: Option<T>, group: Option<T>): Option<T> {
    if own.Some? then own else group
  }

  function Default(sent: uint64, def: uint64): uint64 {
    if sent == 0 then def else sent
  }

  function Default32(sent: uint32, def: uint32): uint32 {
    if sent == 0 then def else sent
  }

  /** Ordinals outside the enum are dropped by the daemon. */
  function Encoded(sendCommunity: Option<uint32>): Option<uint32> {
    if sendCommunity.Some? && sendCommunity.value < 4 then sendCommunity else None
  }

  /** allowOwnAsn, replacePeerAsn and allowAspathLoopLocal share one presence signal. */
  predicate ClaimsAsPath(c: PeerConf) {
    c.allowOwnAsn.Some? || c.replacePeerAsn.Some? || c.allowAspathLoopLocal.Some?
  }

  function ReportedAddress(c: PeerConf, env: Defaults): string {
    if c.neighborInterface != "" then env.linkLocal(c.neighborInterface) else c.neighborAddress
  }

  function ConfView(c: PeerConf, g: PeerGroupConf, env: Defaults): PeerConf {
    PeerConf(
      ReportedAddress(c, env), c.neighborInterface,
      if g.peerAsn != 0 then g.peerAsn else c.peerAsn,
      c.peerGroup, c.adminDown, c.vrf,
      Some(Default32(c.localAsn.GetOr(g.localAsn), env.globalAsn)),
      Some(c.description.GetOr(g.description)),
      Some(""),
      Some(if ClaimsAsPath(c) then c.allowOwnAsn.GetOr(0) else g.allowOwnAsn),
      Some(if ClaimsAsPath(c) then c.replacePeerAsn.GetOr(false) else g.replacePeerAsn),
      Some(if ClaimsAsPath(c) then c.allowAspathLoopLocal.GetOr(false) else g.allowAspathLoopLocal),
      Some(c.removePrivate.GetOr(g.removePrivate)),
      Some(c.sendSoftwareVersion.GetOr(g.sendSoftwareVersion)),
      Encoded(Inherit(c.sendCommunity, g.sendCommunity)))
  }

  function PolicyView(p: PolicyAssignment, direction: Direction): PolicyAssignment {
    PolicyAssignment("", direction, p.defaultAction, p.policies)
  }

  function ApplyView(a: Option<ApplyPolicy>): ApplyPolicy {
    ApplyPolicy(Some(PolicyView(ImportOf(a), DirectionImport)), Some(PolicyView(ExportOf(a), DirectionExport)))
  }

  function TimersView(t: Option<Timers>, env: Defaults): TimersConfig {
    var c := TimersOf(t);
    TimersConfig(Default(c.connectRetry, env.connectRetry), Default(c.holdTime, env.holdTime),
                 Default(c.keepaliveInterval, env.keepaliveInterval))
  }

  function TransportView(t: Option<Transport>, unset: string): Transport {
    var c := t.GetOr(ZERO_TRANSPORT);
    c.(localAddress := if c.localAddress == "" then unset else c.localAddress)
  }

  /** An enabled graceful restart without a restart time takes the session's hold time. */
  function GracefulView(g: Option<GracefulRestart>, holdTime: uint64): GracefulRestart {
    var c := g.GetOr(ZERO_GRACEFUL);
    c.(restartTime := if c.enabled && c.restartTime == 0 then holdTime % 0x1_0000_0000 else c.restartTime)
  }

  function ReflectorView(r: Option<RouteReflector>, env: Defaults): RouteReflector {
    var c := r.GetOr(ZERO_REFLECTOR);
    c.(clusterId := if c.clusterId != "" then c.clusterId
                    else if c.client then env.derivedClusterId else env.clusterId)
  }

  /** SetDefaultNeighborConfigValues, which runs whether or not BFD is enabled. */
  function BfdView(b: Option<Bfd>): Bfd {
    var c := b.GetOr(ZERO_BFD);
    Bfd(c.enabled, Default32(c.port, BFD_DEFAULT_PORT),
        Default32(c.desiredMinimumTxInterval, BFD_DEFAULT_INTERVAL),
        Default32(c.requiredMinimumReceive, BFD_DEFAULT_INTERVAL),
        Default32(c.detectionMultiplier, BFD_DEFAULT_MULTIPLIER))
  }

  /** ListPeer's report for a peer sent as s in group g. */
  function Resolve(s: Peer, g: PeerGroup, env: Defaults): Peer {
    var timers := TimersView(Inherit(s.timers, g.timers), env);
    Peer(
      ConfView(s.conf, g.conf, env),
      if s.afiSafis != [] then s.afiSafis else if g.afiSafis != [] then g.afiSafis else env.families,
      Some(ApplyView(Inherit(s.applyPolicy, g.applyPolicy))),
      Some(Timers(Some(timers))),
      Some(TransportView(Inherit(s.transport, g.transport), env.localAddress)),
      Some(GracefulView(Inherit(s.gracefulRestart, g.gracefulRestart), timers.holdTime)),
      Some(ReflectorView(s.routeReflector, env)),
      Some(s.ebgpMultihop.GetOr(ZERO_MULTIHOP)),
      Some(BfdView(Inherit(s.bfd, g.bfd))),
      Some(PeerState(s.conf.authPassword.GetOr(g.conf.authPassword) != "")))
  }

  function View(s: Peer, groups: map<string, PeerGroup>, env: Defaults): Peer {
    Resolve(s, GroupOf(groups, s.conf.peerGroup), env)
  }

  /** ListPeerGroup's report: no inheritance, and no defaulting beyond the local AS and the
      rendering of an unset address. */
  function GroupView(g: PeerGroup, env: Defaults): PeerGroup {
    PeerGroup(
      g.conf.(localAsn := Default32(g.conf.localAsn, env.globalAsn), authPassword := "",
              sendCommunity := Encoded(g.conf.sendCommunity)),
      g.afiSafis, Some(ApplyView(g.applyPolicy)), Some(Timers(Some(TimersOf(g.timers)))),
      Some(TransportView(g.transport, env.localAddress)), g.gracefulRestart, g.bfd)
  }
}
