/** What a custom resource comes to, in its own fields: what the daemon must show for a neighbor or a group, and
    which entries apply on this node. */
module Effect {
  import opened Wrappers
  import opened Messages
  import opened Converters
  import opened Echo
  import opened Comparators
  import opened ChangeDetection
  import NoChurn

  // ---- one block at a time: an omitted block is None, and alone says that no group can supply it ----

  predicate SendCommunityShown(name: string, shown: Option<uint32>) {
    && (name == "standard" ==> shown == Some(0))
    && (name == "extended" ==> shown == Some(1))
    && (name == "both" ==> shown == Some(2))
    && (name == "none" ==> shown == Some(3))
  }

  predicate RemovePrivateShown(name: string, shown: Option<RemovePrivate>) {
    (name == "all" ==> shown == Some(RemoveAll)) && (name == "replace" ==> shown == Some(RemoveReplace))
  }

  predicate ConfigShown(c: NeighborConfig, v: PeerConf) {
    && v.neighborInterface == c.neighborInterface && v.peerGroup == c.peerGroup
    && v.adminDown == c.adminDown && v.vrf == c.vrf
    && (c.neighborInterface == "" ==> v.neighborAddress == c.neighborAddress)
    && (c.peerGroup == "" ==> v.peerAsn == c.peerAsn)
    && (c.localAsn != 0 ==> v.localAsn == Some(c.localAsn))
    && (c.description.Some? ==> v.description == c.description)
    && (c.allowOwnAsn.Some? ==> v.allowOwnAsn == c.allowOwnAsn)
    && (c.replacePeerAsn.Some? ==> v.replacePeerAsn == c.replacePeerAsn)
    && (c.allowAspathLoopLocal.Some? ==> v.allowAspathLoopLocal == c.allowAspathLoopLocal)
    && (c.sendSoftwareVersion.Some? ==> v.sendSoftwareVersion == c.sendSoftwareVersion)
    && RemovePrivateShown(c.removePrivate, v.removePrivate) && SendCommunityShown(c.sendCommunity, v.sendCommunity)
  }

  /** The families in order, with their enabled flags. */
  predicate FamiliesShown(specs: seq<AfiSafiSpec>, v: seq<AfiSafi>) {
    specs != [] ==>
      && |v| == |specs|
      && forall i :: 0 <= i < |specs| ==> v[i].config == Some(AfiSafiConfig(Some(specs[i].family), specs[i].enabled))
  }

  predicate PolicyShown(spec: Option<PolicyAssignmentSpec>, v: PolicyAssignment) {
    match spec
    case Some(p) => v.defaultAction == p.defaultAction && v.policies == p.policies
    case None => v.defaultAction == ActionUnspecified && v.policies == []
  }

  predicate PoliciesShown(alone: bool, spec: Option<ApplyPolicySpec>, v: Option<ApplyPolicy>) {
    match spec
    case Some(a) => PolicyShown(a.importPolicy, ImportOf(v)) && PolicyShown(a.exportPolicy, ExportOf(v))
    case None => alone ==> PolicyShown(None, ImportOf(v)) && PolicyShown(None, ExportOf(v))
  }

  predicate TimersShown(spec: Option<TimersConfig>, v: TimersConfig) {
    spec.Some? ==>
      && (spec.value.connectRetry != 0 ==> v.connectRetry == spec.value.connectRetry)
      && (spec.value.holdTime != 0 ==> v.holdTime == spec.value.holdTime)
      && (spec.value.keepaliveInterval != 0 ==> v.keepaliveInterval == spec.value.keepaliveInterval)
  }

  predicate TransportShown(alone: bool, spec: Option<Transport>, v: Transport) {
    match spec
    case Some(t) =>
      && (t.localAddress != "" ==> v.localAddress == t.localAddress)
      && v.passiveMode == t.passiveMode && v.bindInterface == t.bindInterface && v.ipTos == t.ipTos
    case None => alone ==> !v.passiveMode && v.bindInterface == "" && v.ipTos == 0
  }

  predicate RestartShown(alone: bool, spec: Option<GracefulRestart>, v: GracefulRestart) {
    match spec
    case Some(r) =>
      && v.enabled == r.enabled && v.helperOnly == r.helperOnly && v.staleRoutesTime == r.staleRoutesTime
      && (r.restartTime != 0 ==> v.restartTime == r.restartTime)
    case None => alone ==> !v.enabled && !v.helperOnly && v.staleRoutesTime == 0
  }

  predicate ReflectorShown(alone: bool, spec: Option<RouteReflector>, v: RouteReflector) {
    match spec
    case Some(r) => v.client == r.client && (r.clusterId != "" ==> v.clusterId == r.clusterId)
    case None => alone ==> !v.client
  }

  predicate MultihopShown(alone: bool, spec: Option<EbgpMultihop>, v: EbgpMultihop) {
    match spec
    case Some(m) => v.enabled == m.enabled && v.ttl == m.ttl
    case None => alone ==> !v.enabled && v.ttl == 0
  }

  /** An unset flag is off; an unset value is the daemon's default on a peer, and zero on a group. */
  predicate BfdShown(alone: bool, spec: Option<BfdSpec>, v: Bfd, defaulted: bool) {
    match spec
    case Some(b) =>
      && v.enabled == (b.enabled == Some(true))
      && v.port == (if defaulted && b.port == 0 then 3784 else b.port)
      && v.desiredMinimumTxInterval == (if defaulted && b.desiredMinimumTxInterval == 0 then 1000000 else b.desiredMinimumTxInterval)
      && v.requiredMinimumReceive == (if defaulted && b.requiredMinimumReceive == 0 then 1000000 else b.requiredMinimumReceive)
      && v.detectionMultiplier == (if defaulted && b.detectionMultiplier == 0 then 3 else b.detectionMultiplier)
    case None => alone ==> v == if defaulted then Bfd(false, 3784, 1000000, 1000000, 3) else Bfd(false, 0, 0, 0, 0)
  }

  // ---- neighbors ----

  /** The report v is what the neighbor asks for. */
  predicate NeighborShown(n: Neighbor, password: Option<string>, v: Peer) {
    var alone := n.config.peerGroup == "";
    && ConfigShown(n.config, v.conf)
    && (password.Some? ==> v.state == Some(PeerState(password.value != "")))
    && FamiliesShown(n.afiSafis, v.afiSafis)
    && PoliciesShown(alone, n.applyPolicy, v.applyPolicy)
    && TimersShown(n.timers, TimersOf(v.timers))
    && TransportShown(alone, n.transport, v.transport.GetOr(ZERO_TRANSPORT))
    && RestartShown(alone, n.gracefulRestart, v.gracefulRestart.GetOr(ZERO_GRACEFUL))
    && ReflectorShown(alone, n.routeReflector, v.routeReflector.GetOr(ZERO_REFLECTOR))
    && MultihopShown(alone, n.ebgpMultihop, v.ebgpMultihop.GetOr(ZERO_MULTIHOP))
    && BfdShown(alone, n.bfd, v.bfd.GetOr(ZERO_BFD), true)
  }

  lemma ConfigShownIff(n: Neighbor, password: Option<string>, s: Peer, g: PeerGroup, env: Defaults)
    ensures ConfEqual(ToPeer(n, password).conf, ConfView(s.conf, g.conf, env)) <==> ConfigShown(n.config, ConfView(s.conf, g.conf, env))
  {
  }

  lemma FamiliesShownIff(specs: seq<AfiSafiSpec>, v: seq<AfiSafi>)
    ensures AfiSafisEqual(ToAfiSafis(specs), v) <==> FamiliesShown(specs, v)
  {
    var d := ToAfiSafis(specs);
    forall i | 0 <= i < |specs| && |v| == |specs|
      ensures AfiSafiEqual(d[i], v[i]) <==> v[i].config == Some(AfiSafiConfig(Some(specs[i].family), specs[i].enabled)) {
    }
  }

  lemma PoliciesShownIff(alone: bool, spec: Option<ApplyPolicySpec>, v: Option<ApplyPolicy>)
    ensures (!alone && spec.None?) || ApplyPolicyEqual(ToApplyPolicy(spec), v) <==> PoliciesShown(alone, spec, v)
  {
  }

  lemma SessionShownIff(alone: bool, timers: Option<TimersConfig>, transport: Option<Transport>, restart: Option<GracefulRestart>,
                        v: Option<Timers>, w: Option<Transport>, x: Option<GracefulRestart>)
    ensures TimersEqual(ToTimers(timers), v) <==> TimersShown(timers, TimersOf(v))
    ensures (!alone && transport.None?) || TransportEqual(transport, w) <==> TransportShown(alone, transport, w.GetOr(ZERO_TRANSPORT))
    ensures (!alone && restart.None?) || GracefulRestartEqual(restart, x) <==> RestartShown(alone, restart, x.GetOr(ZERO_GRACEFUL))
  {
  }

  lemma BfdShownIff(alone: bool, spec: Option<BfdSpec>, s: Option<Bfd>)
    ensures (!alone && spec.None?) || BfdEqual(ToBfd(spec), Some(BfdView(s)), true) <==> BfdShown(alone, spec, BfdView(s), true)
    ensures BfdEqual(ToBfd(spec), s, false) <==> BfdShown(true, spec, s.GetOr(ZERO_BFD), false)
  {
  }

  /** The controller is content with a report exactly when it shows what the neighbor asks for: conversion and
      comparison together say neither more nor less. */
  lemma QuietIffShown(n: Neighbor, password: Option<string>, s: Peer, groups: map<string, PeerGroup>, env: Defaults)
    ensures !NeedsUpdate(ToPeer(n, password), View(s, groups, env)) <==> NeighborShown(n, password, View(s, groups, env))
  {
    var alone, g := n.config.peerGroup == "", GroupOf(groups, s.conf.peerGroup);
    var d, w := ToPeer(n, password), View(s, groups, env);
    assert !NeedsUpdate(d, w) <==> BlocksQuiet(d, w);
    ConfigShownIff(n, password, s, g, env);
    FamiliesShownIff(n.afiSafis, w.afiSafis);
    PoliciesShownIff(alone, n.applyPolicy, w.applyPolicy);
    SessionShownIff(alone, n.timers, n.transport, n.gracefulRestart, w.timers, w.transport, w.gracefulRestart);
    BfdShownIff(alone, n.bfd, Inherit(s.bfd, g.bfd));
    hide NeedsUpdate, ConfEqual, ConfigShown, AfiSafisEqual, FamiliesShown, ApplyPolicyEqual, PoliciesShown, TimersEqual,
         TimersShown, TransportEqual, TransportShown, GracefulRestartEqual, RestartShown, BfdEqual, BfdShown;
  }

  /** What is sent for a neighbor has the effect it asks for, under every group and every daemon default, and
      carries the password and the limits that no comparison sees. */
  lemma ConvertedNeighborShows(n: Neighbor, password: Option<string>, groups: map<string, PeerGroup>, env: Defaults)
    ensures NeighborShown(n, password, View(ToPeer(n, password), groups, env))
    ensures n.afiSafis != [] ==>
      var v := View(ToPeer(n, password), groups, env).afiSafis;
      |v| == |n.afiSafis| &&
      forall i :: 0 <= i < |v| ==> v[i].prefixLimit == n.afiSafis[i].prefixLimit && v[i].addPaths == n.afiSafis[i].addPaths
    ensures ToPeer(n, password).conf.authPassword == password
  {
    NoChurn.ConvertedNeighborNeverChurns(n, password, groups, env);
    QuietIffShown(n, password, ToPeer(n, password), groups, env);
    hide NeedsUpdate, NeighborShown;
  }

  /** What a member of group g leaves out, the group supplies, block by block, and the daemon what that leaves out.
      A member that states one as-path field, or one timer, leaves none of them. */
  lemma OmittedIsInherited(n: Neighbor, password: Option<string>, groups: map<string, PeerGroup>, env: Defaults)
    ensures var v, c, g := View(ToPeer(n, password), groups, env), n.config, GroupOf(groups, n.config.peerGroup);
      && (g.conf.peerAsn != 0 ==> v.conf.peerAsn == g.conf.peerAsn)
      && (g.conf.peerAsn == 0 ==> v.conf.peerAsn == c.peerAsn)
      && (c.localAsn == 0 ==> v.conf.localAsn == Some(if g.conf.localAsn == 0 then env.globalAsn else g.conf.localAsn))
      && (c.description.None? ==> v.conf.description == Some(g.conf.description))
      && (c.allowOwnAsn.None? && c.replacePeerAsn.None? && c.allowAspathLoopLocal.None? ==>
           && v.conf.allowOwnAsn == Some(g.conf.allowOwnAsn) && v.conf.replacePeerAsn == Some(g.conf.replacePeerAsn)
           && v.conf.allowAspathLoopLocal == Some(g.conf.allowAspathLoopLocal))
      && (c.allowOwnAsn.None? && (c.replacePeerAsn.Some? || c.allowAspathLoopLocal.Some?) ==> v.conf.allowOwnAsn == Some(0))
      && (c.replacePeerAsn.None? && (c.allowOwnAsn.Some? || c.allowAspathLoopLocal.Some?) ==> v.conf.replacePeerAsn == Some(false))
      && (c.allowAspathLoopLocal.None? && (c.allowOwnAsn.Some? || c.replacePeerAsn.Some?) ==> v.conf.allowAspathLoopLocal == Some(false))
      && (c.removePrivate !in {"all", "replace"} ==> v.conf.removePrivate == Some(g.conf.removePrivate))
      && (c.sendSoftwareVersion.None? ==> v.conf.sendSoftwareVersion == Some(g.conf.sendSoftwareVersion))
      && (c.sendCommunity !in {"standard", "extended", "both", "none"} && Encodable(g.conf.sendCommunity) ==>
           v.conf.sendCommunity == g.conf.sendCommunity)
      && (password.None? ==> v.state == Some(PeerState(g.conf.authPassword != "")))
      && (n.afiSafis == [] ==> v.afiSafis == if g.afiSafis != [] then g.afiSafis else env.families)
      && (n.applyPolicy.None? ==>
           && PolicyValue(ImportOf(v.applyPolicy)) == PolicyValue(ImportOf(g.applyPolicy))
           && PolicyValue(ExportOf(v.applyPolicy)) == PolicyValue(ExportOf(g.applyPolicy)))
      && TimersOf(v.timers) == TimersView(if n.timers.Some? then ToTimers(n.timers) else g.timers, env)
      && (n.transport.None? ==> v.transport == Some(TransportView(g.transport, env.localAddress)))
      && (n.gracefulRestart.None? ==> v.gracefulRestart == Some(GracefulView(g.gracefulRestart, TimersOf(v.timers).holdTime)))
      && (n.bfd.None? ==> v.bfd == Some(BfdView(g.bfd)))
  {
  }

  // ---- peer groups ----

  predicate GroupShown(spec: PeerGroupSpec, v: PeerGroup) {
    var c := spec.config;
    && v.conf.peerGroupName == c.peerGroupName && v.conf.peerAsn == c.peerAsn && v.conf.description == c.description
    && v.conf.allowOwnAsn == c.allowOwnAsn && v.conf.replacePeerAsn == c.replacePeerAsn
    && v.conf.allowAspathLoopLocal == c.allowAspathLoopLocal && v.conf.sendSoftwareVersion == c.sendSoftwareVersion
    && (c.localAsn != 0 ==> v.conf.localAsn == c.localAsn)
    && v.conf.removePrivate == (if c.removePrivate == "all" then RemoveAll
                                else if c.removePrivate == "replace" then RemoveReplace else RemoveUnspecified)
    && SendCommunityShown(c.sendCommunity, v.conf.sendCommunity)
    && FamiliesShown(spec.afiSafis, v.afiSafis)
    && PoliciesShown(true, spec.applyPolicy, v.applyPolicy)
    && TimersShown(spec.timers, TimersOf(v.timers))
    && TransportShown(true, spec.transport, v.transport.GetOr(ZERO_TRANSPORT))
    && RestartShown(true, spec.gracefulRestart, v.gracefulRestart.GetOr(ZERO_GRACEFUL))
    && BfdShown(true, spec.bfd, v.bfd.GetOr(ZERO_BFD), false)
  }

  /** The group comparison, in the resource's fields. */
  lemma GroupQuietIffShown(spec: PeerGroupSpec, password: string, s: PeerGroup, env: Defaults)
    ensures PeerGroupConfigEqual(ToPeerGroup(spec, password), GroupView(s, env)) <==> GroupShown(spec, GroupView(s, env))
  {
    var w := GroupView(s, env);
    FamiliesShownIff(spec.afiSafis, w.afiSafis);
    PoliciesShownIff(true, spec.applyPolicy, w.applyPolicy);
    SessionShownIff(true, spec.timers, spec.transport, spec.gracefulRestart, w.timers, w.transport, w.gracefulRestart);
    BfdShownIff(true, spec.bfd, w.bfd);
    hide AfiSafisEqual, FamiliesShown, ApplyPolicyEqual, PoliciesShown, TimersEqual, TimersShown, TransportEqual, TransportShown,
         GracefulRestartEqual, RestartShown, BfdEqual, BfdShown;
  }

  lemma ConvertedGroupShows(spec: PeerGroupSpec, password: string, env: Defaults)
    ensures GroupShown(spec, GroupView(ToPeerGroup(spec, password), env))
    ensures var v := GroupView(ToPeerGroup(spec, password), env).afiSafis;
      |v| == |spec.afiSafis| &&
      forall i :: 0 <= i < |v| ==> v[i].prefixLimit == spec.afiSafis[i].prefixLimit && v[i].addPaths == spec.afiSafis[i].addPaths
    ensures ToPeerGroup(spec, password).conf.authPassword == password
  {
    NoChurn.ConvertedGroupNeverChurns(spec, password, env);
    GroupQuietIffShown(spec, password, ToPeerGroup(spec, password), env);
    hide PeerGroupConfigEqual, GroupShown;
  }

  /** Two reports of groups agree on what d states: everything but a zero local AS, timers and restart time, an
      empty local address, an omitted community and an empty family list. */
  predicate GroupStatedAgree(d: PeerGroup, v: PeerGroup, w: PeerGroup) {
    && v.conf.peerGroupName == w.conf.peerGroupName && v.conf.peerAsn == w.conf.peerAsn && v.conf.description == w.conf.description
    && v.conf.allowOwnAsn == w.conf.allowOwnAsn && v.conf.replacePeerAsn == w.conf.replacePeerAsn
    && v.conf.allowAspathLoopLocal == w.conf.allowAspathLoopLocal && v.conf.sendSoftwareVersion == w.conf.sendSoftwareVersion
    && v.conf.removePrivate == w.conf.removePrivate
    && (d.conf.localAsn != 0 ==> v.conf.localAsn == w.conf.localAsn)
    && (d.conf.sendCommunity.Some? ==> v.conf.sendCommunity == w.conf.sendCommunity)
    && (d.afiSafis != [] ==> FamilyConfigs(v.afiSafis) == FamilyConfigs(w.afiSafis))
    && PolicyValue(ImportOf(v.applyPolicy)) == PolicyValue(ImportOf(w.applyPolicy))
    && PolicyValue(ExportOf(v.applyPolicy)) == PolicyValue(ExportOf(w.applyPolicy))
    && (forall f: TimersField :: TimersValue(f, TimersOf(d.timers)) != 0 ==>
         TimersValue(f, TimersOf(v.timers)) == TimersValue(f, TimersOf(w.timers)))
    && (forall f: TransportField :: TransportStated(f, true, d.transport) ==>
         TransportValue(f, v.transport.GetOr(ZERO_TRANSPORT)) == TransportValue(f, w.transport.GetOr(ZERO_TRANSPORT)))
    && (forall f: RestartField :: RestartStated(f, true, d.gracefulRestart) ==>
         RestartValue(f, v.gracefulRestart.GetOr(ZERO_GRACEFUL)) == RestartValue(f, w.gracefulRestart.GetOr(ZERO_GRACEFUL)))
    && v.bfd.GetOr(ZERO_BFD) == w.bfd.GetOr(ZERO_BFD)
  }

  /** What the converter guarantees of a group message. */
  predicate GroupExpressible(d: PeerGroup) {
    && Encodable(d.conf.sendCommunity)
    && forall i :: 0 <= i < |d.afiSafis| ==> d.afiSafis[i].config.Some? && d.afiSafis[i].config.value.family.Some?
  }

  lemma GroupTimersAreExact(d: Option<Timers>, w: Option<Timers>)
    ensures TimersEqual(d, w) <==>
            forall f: TimersField :: TimersValue(f, TimersOf(d)) != 0 ==> TimersValue(f, TimersOf(d)) == TimersValue(f, TimersOf(w))
  {
    var t := TimersOf(d);
    assert TimersValue(ConnectRetry, t) == t.connectRetry && TimersValue(HoldTime, t) == t.holdTime;
    assert TimersValue(Keepalive, t) == t.keepaliveInterval;
  }

  lemma GroupRestartIsExact(d: Option<GracefulRestart>, w: Option<GracefulRestart>)
    ensures GracefulRestartEqual(d, w) <==>
            forall f: RestartField :: RestartStated(f, true, d) ==>
              RestartValue(f, d.GetOr(ZERO_GRACEFUL)) == RestartValue(f, w.GetOr(ZERO_GRACEFUL))
  {
    assert RestartStated(RestartTime, true, d) <==> d.GetOr(ZERO_GRACEFUL).restartTime != 0;
    assert RestartStated(RestartEnabled, true, d) && RestartStated(HelperOnly, true, d) && RestartStated(StaleRoutesTime, true, d);
  }

  /** Change detection for groups, both ways: a group is updated exactly when something it states would come out
      differently from what the daemon shows now. */
  lemma GroupDetectionIsExact(d: PeerGroup, s: PeerGroup, env: Defaults)
    requires GroupExpressible(d)
    ensures PeerGroupConfigEqual(d, GroupView(s, env)) <==> GroupStatedAgree(d, GroupView(d, env), GroupView(s, env))
  {
    var v, w := GroupView(d, env), GroupView(s, env);
    FamiliesAreExact(d.afiSafis, w.afiSafis);
    GroupTimersAreExact(d.timers, w.timers);
    TransportIsExact(true, d.transport, None, w.transport.value, env.localAddress);
    GroupRestartIsExact(d.gracefulRestart, w.gracefulRestart);
    assert Inherit(d.transport, None) == d.transport;
    hide AfiSafisEqual, TimersEqual, TransportEqual, GracefulRestartEqual, TimersValue, TransportValue, RestartValue, RestartStated,
         TransportStated, FamilyConfigs, TransportView;
  }
}
