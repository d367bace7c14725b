/** Which edits of a neighbor the controller can see, field by field. */
module ChangeDetection {
  import opened Wrappers
  import opened Messages
  import opened Echo
  import opened Comparators
  import opened NoChurn

  // ---- the compared fields, block by block ----

  datatype ConfField =
    | Address | Interface | PeerAsn | Group | AdminDown | Vrf | LocalAsn | Description
    | AllowOwnAsn | ReplacePeerAsn | AllowAspathLoopLocal | SendSoftwareVersion | RemovePrivateMode | SendCommunity
  datatype TimersField = ConnectRetry | HoldTime | Keepalive
  datatype TransportField = LocalAddress | PassiveMode | BindInterface | IpTos
  datatype RestartField = RestartEnabled | HelperOnly | RestartTime | StaleRoutesTime
  datatype ReflectorField = ReflectorClient | ClusterId
  datatype MultihopField = MultihopEnabled | MultihopTtl
  datatype BfdField = BfdEnabled | BfdPort | BfdTxInterval | BfdReceive | BfdMultiplier

  datatype Field =
    | OfConf(conf: ConfField) | AuthPresence | Families | ImportPolicy | ExportPolicy
    | OfTimers(timer: TimersField) | OfTransport(transport: TransportField) | OfRestart(restart: RestartField)
    | OfReflector(reflector: ReflectorField) | OfMultihop(multihop: MultihopField) | OfBfd(bfd: BfdField)

  datatype Value = Flag(b: bool) | Number(n: int) | Text(s: string) | Removal(r: RemovePrivate)
                 | Ordinal(o: Option<uint32>) | Policy(action: RouteAction, names: seq<string>)
                 | FamilyList(families: seq<Option<AfiSafiConfig>>)

  // ---- their values ----

  function ConfValue(f: ConfField, c: PeerConf): Value {
    match f
    case Address => Text(c.neighborAddress)
    case Interface => Text(c.neighborInterface)
    case PeerAsn => Number(c.peerAsn)
    case Group => Text(c.peerGroup)
    case AdminDown => Flag(c.adminDown)
    case Vrf => Text(c.vrf)
    case LocalAsn => Number(c.localAsn.GetOr(0))
    case Description => Text(c.description.GetOr(""))
    case AllowOwnAsn => Number(c.allowOwnAsn.GetOr(0))
    case ReplacePeerAsn => Flag(c.replacePeerAsn.GetOr(false))
    case AllowAspathLoopLocal => Flag(c.allowAspathLoopLocal.GetOr(false))
    case SendSoftwareVersion => Flag(c.sendSoftwareVersion.GetOr(false))
    case RemovePrivateMode => Removal(c.removePrivate.GetOr(RemoveUnspecified))
    case SendCommunity => Ordinal(c.sendCommunity)
  }

  function TimersValue(f: TimersField, t: TimersConfig): int {
    match f
    case ConnectRetry => t.connectRetry
    case HoldTime => t.holdTime
    case Keepalive => t.keepaliveInterval
  }

  function TransportValue(f: TransportField, t: Transport): Value {
    match f
    case LocalAddress => Text(t.localAddress)
    case PassiveMode => Flag(t.passiveMode)
    case BindInterface => Text(t.bindInterface)
    case IpTos => Number(t.ipTos)
  }

  function RestartValue(f: RestartField, r: GracefulRestart): Value {
    match f
    case RestartEnabled => Flag(r.enabled)
    case HelperOnly => Flag(r.helperOnly)
    case RestartTime => Number(r.restartTime)
    case StaleRoutesTime => Number(r.staleRoutesTime)
  }

  function ReflectorValue(f: ReflectorField, r: RouteReflector): Value {
    match f
    case ReflectorClient => Flag(r.client)
    case ClusterId => Text(r.clusterId)
  }

  function MultihopValue(f: MultihopField, m: EbgpMultihop): Value {
    match f
    case MultihopEnabled => Flag(m.enabled)
    case MultihopTtl => Number(m.ttl)
  }

  function BfdValue(f: BfdField, b: Bfd): Value {
    match f
    case BfdEnabled => Flag(b.enabled)
    case BfdPort => Number(b.port)
    case BfdTxInterval => Number(b.desiredMinimumTxInterval)
    case BfdReceive => Number(b.requiredMinimumReceive)
    case BfdMultiplier => Number(b.detectionMultiplier)
  }

  /** Of each family entry, what the comparator looks at; limits and add-paths are not part of it. */
  function FamilyConfigs(afiSafis: seq<AfiSafi>): (r: seq<Option<AfiSafiConfig>>)
    ensures |r| == |afiSafis|
  {
    seq(|afiSafis|, i requires 0 <= i < |afiSafis| => afiSafis[i].config)
  }

  function PolicyValue(p: PolicyAssignment): Value {
    Policy(p.defaultAction, p.policies)
  }

  /** The value of a field in a report. */
  function ValueOf(f: Field, v: Peer): Value {
    match f
    case OfConf(cf) => ConfValue(cf, v.conf)
    case AuthPresence => Flag(v.state.GetOr(PeerState(false)).authPasswordSet)
    case Families => FamilyList(FamilyConfigs(v.afiSafis))
    case ImportPolicy => PolicyValue(ImportOf(v.applyPolicy))
    case ExportPolicy => PolicyValue(ExportOf(v.applyPolicy))
    case OfTimers(tf) => Number(TimersValue(tf, TimersOf(v.timers)))
    case OfTransport(tf) => TransportValue(tf, v.transport.GetOr(ZERO_TRANSPORT))
    case OfRestart(rf) => RestartValue(rf, v.gracefulRestart.GetOr(ZERO_GRACEFUL))
    case OfReflector(rf) => ReflectorValue(rf, v.routeReflector.GetOr(ZERO_REFLECTOR))
    case OfMultihop(mf) => MultihopValue(mf, v.ebgpMultihop.GetOr(ZERO_MULTIHOP))
    case OfBfd(bf) => BfdValue(bf, v.bfd.GetOr(ZERO_BFD))
  }

  // ---- what a message states ----

  /** A grouped neighbor does not state its peer AS; an interface peer does not state its address. */
  predicate ConfStated(f: ConfField, c: PeerConf) {
    match f
    case Address => c.neighborInterface == ""
    case Interface | Group | AdminDown | Vrf => true
    case PeerAsn => c.peerGroup == ""
    case LocalAsn => c.localAsn.GetOr(0) != 0
    case Description => c.description.Some?
    case AllowOwnAsn => c.allowOwnAsn.Some?
    case ReplacePeerAsn => c.replacePeerAsn.Some?
    case AllowAspathLoopLocal => c.allowAspathLoopLocal.Some?
    case SendSoftwareVersion => c.sendSoftwareVersion.Some?
    case RemovePrivateMode => c.removePrivate.Some?
    case SendCommunity => c.sendCommunity.Some?
  }

  predicate TransportStated(f: TransportField, alone: bool, t: Option<Transport>) {
    if f == LocalAddress then t.GetOr(ZERO_TRANSPORT).localAddress != "" else alone || t.Some?
  }

  predicate RestartStated(f: RestartField, alone: bool, r: Option<GracefulRestart>) {
    if f == RestartTime then r.GetOr(ZERO_GRACEFUL).restartTime != 0 else alone || r.Some?
  }

  predicate ReflectorStated(f: ReflectorField, alone: bool, r: Option<RouteReflector>) {
    if f == ClusterId then r.GetOr(ZERO_REFLECTOR).clusterId != "" else alone || r.Some?
  }

  /** Whether the message expresses an opinion on the field. A neighbor outside every group states its
      omitted blocks as empty ones; a field guarded by zero is not stated by a zero. */
  predicate Stated(f: Field, d: Peer) {
    var alone := d.conf.peerGroup == "";
    match f
    case OfConf(cf) => ConfStated(cf, d.conf)
    case AuthPresence => d.conf.authPassword.Some?
    case Families => d.afiSafis != []
    case ImportPolicy | ExportPolicy => alone || d.applyPolicy.Some?
    case OfTimers(tf) => TimersValue(tf, TimersOf(d.timers)) != 0
    case OfTransport(tf) => TransportStated(tf, alone, d.transport)
    case OfRestart(rf) => RestartStated(rf, alone, d.gracefulRestart)
    case OfReflector(rf) => ReflectorStated(rf, alone, d.routeReflector)
    case OfMultihop(mf) => alone || d.ebgpMultihop.Some?
    case OfBfd(bf) => alone || d.bfd.Some?
  }

  /** What the converters guarantee of every message: encodable community ordinals, named families. */
  predicate Expressible(d: Peer) {
    && Encodable(d.conf.sendCommunity)
    && forall i :: 0 <= i < |d.afiSafis| ==> d.afiSafis[i].config.Some? && d.afiSafis[i].config.value.family.Some?
  }

  // ---- each comparator sees exactly the stated fields of its block ----

  predicate ConfClause(f: ConfField, d: PeerConf, c: PeerConf) {
    match f
    case Address => d.neighborInterface != "" || d.neighborAddress == c.neighborAddress
    case LocalAsn => d.localAsn.GetOr(0) == 0 || d.localAsn.GetOr(0) == c.localAsn.GetOr(0)
    case PeerAsn => d.peerGroup != "" || d.peerAsn == c.peerAsn
    case Description => d.description.None? || d.description.value == c.description.GetOr("")
    case Group => d.peerGroup == c.peerGroup
    case AdminDown => d.adminDown == c.adminDown
    case Interface => d.neighborInterface == c.neighborInterface
    case Vrf => d.vrf == c.vrf
    case AllowOwnAsn => d.allowOwnAsn.None? || d.allowOwnAsn.value == c.allowOwnAsn.GetOr(0)
    case ReplacePeerAsn => d.replacePeerAsn.None? || d.replacePeerAsn.value == c.replacePeerAsn.GetOr(false)
    case AllowAspathLoopLocal =>
      d.allowAspathLoopLocal.None? || d.allowAspathLoopLocal.value == c.allowAspathLoopLocal.GetOr(false)
    case SendSoftwareVersion =>
      d.sendSoftwareVersion.None? || d.sendSoftwareVersion.value == c.sendSoftwareVersion.GetOr(false)
    case RemovePrivateMode => d.removePrivate.None? || d.removePrivate.value == c.removePrivate.GetOr(RemoveUnspecified)
    case SendCommunity => SendCommunityEqual(d.sendCommunity, c.sendCommunity)
  }

  lemma ConfClausesAreConfEqual(d: PeerConf, c: PeerConf)
    ensures ConfEqual(d, c) <==> forall f :: ConfClause(f, d, c)
  {
    if forall f :: ConfClause(f, d, c) {
      assert ConfClause(Address, d, c) && ConfClause(LocalAsn, d, c) && ConfClause(PeerAsn, d, c);
      assert ConfClause(Description, d, c) && ConfClause(Group, d, c) && ConfClause(AdminDown, d, c);
      assert ConfClause(Interface, d, c) && ConfClause(Vrf, d, c) && ConfClause(AllowOwnAsn, d, c);
      assert ConfClause(ReplacePeerAsn, d, c) && ConfClause(AllowAspathLoopLocal, d, c);
      assert ConfClause(SendSoftwareVersion, d, c) && ConfClause(RemovePrivateMode, d, c) && ConfClause(SendCommunity, d, c);
    }
  }

  lemma ConfClauseIsExact(f: ConfField, d: PeerConf, w: PeerConf, g: PeerGroupConf, env: Defaults)
    requires Encodable(d.sendCommunity)
    requires d.peerGroup == "" ==> g.peerAsn == 0
    ensures ConfClause(f, d, w) <==> (ConfStated(f, d) ==> ConfValue(f, ConfView(d, g, env)) == ConfValue(f, w))
  {
  }

  lemma ConfIsExact(d: PeerConf, w: PeerConf, g: PeerGroupConf, env: Defaults)
    requires Encodable(d.sendCommunity)
    requires d.peerGroup == "" ==> g.peerAsn == 0
    ensures ConfEqual(d, w) <==> forall f | ConfStated(f, d) :: ConfValue(f, ConfView(d, g, env)) == ConfValue(f, w)
  {
    ConfClausesAreConfEqual(d, w);
    forall f: ConfField {
      ConfClauseIsExact(f, d, w, g, env);
    }
  }

  lemma FamiliesAreExact(d: seq<AfiSafi>, w: seq<AfiSafi>)
    requires forall i :: 0 <= i < |d| ==> d[i].config.Some? && d[i].config.value.family.Some?
    ensures AfiSafisEqual(d, w) <==> (d != [] ==> FamilyConfigs(d) == FamilyConfigs(w))
  {
    if FamilyConfigs(d) == FamilyConfigs(w) {
      forall i | 0 <= i < |d| ensures AfiSafiEqual(d[i], w[i]) {
        assert FamilyConfigs(d)[i] == FamilyConfigs(w)[i];
      }
    }
  }

  lemma TimersAreExact(d: Option<Timers>, g: Option<Timers>, w: TimersConfig, env: Defaults)
    ensures TimersEqual(d, Some(Timers(Some(w)))) <==>
            forall f | TimersValue(f, TimersOf(d)) != 0 :: TimersValue(f, TimersView(Inherit(d, g), env)) == TimersValue(f, w)
  {
    var t := TimersOf(d);
    assert TimersValue(ConnectRetry, t) == t.connectRetry && TimersValue(HoldTime, t) == t.holdTime;
    assert TimersValue(Keepalive, t) == t.keepaliveInterval;
  }

  lemma TransportIsExact(alone: bool, d: Option<Transport>, g: Option<Transport>, w: Transport, unset: string)
    requires alone ==> g.None?
    ensures ((!alone && d.None?) || TransportEqual(d, Some(w))) <==>
            forall f | TransportStated(f, alone, d) :: TransportValue(f, TransportView(Inherit(d, g), unset)) == TransportValue(f, w)
  {
    assert TransportStated(LocalAddress, alone, d) <==> d.GetOr(ZERO_TRANSPORT).localAddress != "";
    assert TransportStated(PassiveMode, alone, d) == TransportStated(BindInterface, alone, d) == TransportStated(IpTos, alone, d);
  }

  lemma RestartIsExact(alone: bool, d: Option<GracefulRestart>, g: Option<GracefulRestart>, w: GracefulRestart, holdTime: uint64)
    requires alone ==> g.None?
    ensures ((!alone && d.None?) || GracefulRestartEqual(d, Some(w))) <==>
            forall f | RestartStated(f, alone, d) :: RestartValue(f, GracefulView(Inherit(d, g), holdTime)) == RestartValue(f, w)
  {
    assert RestartStated(RestartTime, alone, d) <==> d.GetOr(ZERO_GRACEFUL).restartTime != 0;
    assert RestartStated(RestartEnabled, alone, d) == RestartStated(HelperOnly, alone, d) == RestartStated(StaleRoutesTime, alone, d);
  }

  lemma ReflectorIsExact(alone: bool, d: Option<RouteReflector>, w: RouteReflector, env: Defaults)
    ensures ((!alone && d.None?) || RouteReflectorEqual(d, Some(w))) <==>
            forall f | ReflectorStated(f, alone, d) :: ReflectorValue(f, ReflectorView(d, env)) == ReflectorValue(f, w)
  {
    assert ReflectorStated(ClusterId, alone, d) <==> d.GetOr(ZERO_REFLECTOR).clusterId != "";
    assert ReflectorStated(ReflectorClient, alone, d) <==> alone || d.Some?;
  }

  lemma MultihopIsExact(d: Option<EbgpMultihop>, w: EbgpMultihop)
    ensures EbgpMultihopEqual(d, Some(w)) <==>
            forall f :: MultihopValue(f, d.GetOr(ZERO_MULTIHOP)) == MultihopValue(f, w)
  {
    var m := d.GetOr(ZERO_MULTIHOP);
    assert MultihopValue(MultihopEnabled, m) == Flag(m.enabled) && MultihopValue(MultihopTtl, m) == Number(m.ttl);
  }

  lemma BfdIsExact(d: Option<Bfd>, s: Option<Bfd>)
    ensures BfdEqual(d, Some(BfdView(s)), true) <==> forall f :: BfdValue(f, BfdView(d)) == BfdValue(f, BfdView(s))
  {
    var v := BfdView(d);
    assert BfdValue(BfdEnabled, v) == Flag(v.enabled) && BfdValue(BfdPort, v) == Number(v.port);
    assert BfdValue(BfdTxInterval, v) == Number(v.desiredMinimumTxInterval);
    assert BfdValue(BfdReceive, v) == Number(v.requiredMinimumReceive);
    assert BfdValue(BfdMultiplier, v) == Number(v.detectionMultiplier);
  }

  // ---- the whole comparison ----

  ghost predicate StatedFieldsAgree(d: Peer, v: Peer, w: Peer) {
    forall f | Stated(f, d) :: ValueOf(f, v) == ValueOf(f, w)
  }

  /** NeedsUpdate against the report of s, block by block. */
  predicate BlocksQuiet(d: Peer, w: Peer) {
    var alone := d.conf.peerGroup == "";
    && ConfEqual(d.conf, w.conf) && !AuthPasswordDrifted(d, w) && AfiSafisEqual(d.afiSafis, w.afiSafis)
    && ((!alone && d.applyPolicy.None?) || ApplyPolicyEqual(d.applyPolicy, w.applyPolicy))
    && TimersEqual(d.timers, w.timers)
    && ((!alone && d.transport.None?) || TransportEqual(d.transport, w.transport))
    && ((!alone && d.gracefulRestart.None?) || GracefulRestartEqual(d.gracefulRestart, w.gracefulRestart))
    && ((!alone && d.routeReflector.None?) || RouteReflectorEqual(d.routeReflector, w.routeReflector))
    && ((!alone && d.ebgpMultihop.None?) || EbgpMultihopEqual(d.ebgpMultihop, w.ebgpMultihop))
    && ((!alone && d.bfd.None?) || BfdEqual(d.bfd, w.bfd, true))
  }

  lemma DetectionIsExactInGroup(d: Peer, s: Peer, g: PeerGroup, env: Defaults)
    requires Expressible(d)
    requires d.conf.peerGroup == "" ==> g == NO_GROUP
    ensures !NeedsUpdate(d, Resolve(s, g, env)) <==> StatedFieldsAgree(d, Resolve(d, g, env), Resolve(s, g, env))
  {
    var alone := d.conf.peerGroup == "";
    var v, w := Resolve(d, g, env), Resolve(s, g, env);
    assert !NeedsUpdate(d, w) <==> BlocksQuiet(d, w);
    ConfIsExact(d.conf, w.conf, g.conf, env);
    FamiliesAreExact(d.afiSafis, w.afiSafis);
    TimersAreExact(d.timers, g.timers, TimersOf(w.timers), env);
    TransportIsExact(alone, d.transport, g.transport, w.transport.value, env.localAddress);
    RestartIsExact(alone, d.gracefulRestart, g.gracefulRestart, w.gracefulRestart.value, TimersOf(v.timers).holdTime);
    ReflectorIsExact(alone, d.routeReflector, w.routeReflector.value, env);
    MultihopIsExact(d.ebgpMultihop, w.ebgpMultihop.value);
    BfdIsExact(d.bfd, Inherit(s.bfd, g.bfd));
    if BlocksQuiet(d, w) {
      forall f | Stated(f, d) ensures ValueOf(f, v) == ValueOf(f, w) {
        StatedFieldAgrees(f, d, s, g, env);
      }
    } else if StatedFieldsAgree(d, v, w) {
      AgreementIsQuiet(d, s, g, env);
    }
  }

  lemma StatedFieldAgrees(f: Field, d: Peer, s: Peer, g: PeerGroup, env: Defaults)
    requires Expressible(d)
    requires d.conf.peerGroup == "" ==> g == NO_GROUP
    requires BlocksQuiet(d, Resolve(s, g, env)) && Stated(f, d)
    ensures ValueOf(f, Resolve(d, g, env)) == ValueOf(f, Resolve(s, g, env))
  {
    var alone := d.conf.peerGroup == "";
    var v, w := Resolve(d, g, env), Resolve(s, g, env);
    match f
    case OfConf(cf) => ConfIsExact(d.conf, w.conf, g.conf, env);
    case AuthPresence =>
    case Families => FamiliesAreExact(d.afiSafis, w.afiSafis);
    case ImportPolicy =>
    case ExportPolicy =>
    case OfTimers(tf) => TimersAreExact(d.timers, g.timers, TimersOf(w.timers), env);
    case OfTransport(tf) => TransportIsExact(alone, d.transport, g.transport, w.transport.value, env.localAddress);
    case OfRestart(rf) =>
      RestartIsExact(alone, d.gracefulRestart, g.gracefulRestart, w.gracefulRestart.value, TimersOf(v.timers).holdTime);
    case OfReflector(rf) => ReflectorIsExact(alone, d.routeReflector, w.routeReflector.value, env);
    case OfMultihop(mf) => MultihopIsExact(d.ebgpMultihop, w.ebgpMultihop.value);
    case OfBfd(bf) => BfdIsExact(d.bfd, Inherit(s.bfd, g.bfd));
  }

  lemma AgreementIsQuiet(d: Peer, s: Peer, g: PeerGroup, env: Defaults)
    requires Expressible(d)
    requires d.conf.peerGroup == "" ==> g == NO_GROUP
    requires StatedFieldsAgree(d, Resolve(d, g, env), Resolve(s, g, env))
    ensures BlocksQuiet(d, Resolve(s, g, env))
  {
    var alone := d.conf.peerGroup == "";
    var v, w := Resolve(d, g, env), Resolve(s, g, env);
    AgreementIsQuietInConf(d, s, g, env);
    assert (!alone && d.applyPolicy.None?) || ApplyPolicyEqual(d.applyPolicy, w.applyPolicy) by {
      assert Stated(ImportPolicy, d) ==> ValueOf(ImportPolicy, v) == ValueOf(ImportPolicy, w);
      assert Stated(ExportPolicy, d) ==> ValueOf(ExportPolicy, v) == ValueOf(ExportPolicy, w);
    }
    assert TimersEqual(d.timers, w.timers) by {
      TimersAreExact(d.timers, g.timers, TimersOf(w.timers), env);
      forall f | TimersValue(f, TimersOf(d.timers)) != 0
        ensures TimersValue(f, TimersOf(v.timers)) == TimersValue(f, TimersOf(w.timers)) {
        assert Stated(OfTimers(f), d) && ValueOf(OfTimers(f), v) == ValueOf(OfTimers(f), w);
      }
    }
    AgreementIsQuietInBlocks(d, s, g, env);
  }

  lemma AgreementIsQuietInBlocks(d: Peer, s: Peer, g: PeerGroup, env: Defaults)
    requires d.conf.peerGroup == "" ==> g == NO_GROUP
    requires StatedFieldsAgree(d, Resolve(d, g, env), Resolve(s, g, env))
    ensures var alone, w := d.conf.peerGroup == "", Resolve(s, g, env);
            && ((!alone && d.transport.None?) || TransportEqual(d.transport, w.transport))
            && ((!alone && d.gracefulRestart.None?) || GracefulRestartEqual(d.gracefulRestart, w.gracefulRestart))
            && ((!alone && d.routeReflector.None?) || RouteReflectorEqual(d.routeReflector, w.routeReflector))
            && ((!alone && d.ebgpMultihop.None?) || EbgpMultihopEqual(d.ebgpMultihop, w.ebgpMultihop))
            && ((!alone && d.bfd.None?) || BfdEqual(d.bfd, w.bfd, true))
  {
    var alone := d.conf.peerGroup == "";
    var v, w := Resolve(d, g, env), Resolve(s, g, env);
    assert (!alone && d.transport.None?) || TransportEqual(d.transport, w.transport) by {
      TransportIsExact(alone, d.transport, g.transport, w.transport.value, env.localAddress);
      forall f | TransportStated(f, alone, d.transport) ensures TransportValue(f, v.transport.value) == TransportValue(f, w.transport.value) {
        assert Stated(OfTransport(f), d) && ValueOf(OfTransport(f), v) == ValueOf(OfTransport(f), w);
      }
    }
    assert (!alone && d.gracefulRestart.None?) || GracefulRestartEqual(d.gracefulRestart, w.gracefulRestart) by {
      RestartIsExact(alone, d.gracefulRestart, g.gracefulRestart, w.gracefulRestart.value, TimersOf(v.timers).holdTime);
      forall f | RestartStated(f, alone, d.gracefulRestart)
        ensures RestartValue(f, v.gracefulRestart.value) == RestartValue(f, w.gracefulRestart.value) {
        assert Stated(OfRestart(f), d) && ValueOf(OfRestart(f), v) == ValueOf(OfRestart(f), w);
      }
    }
    AgreementIsQuietInOwnBlocks(d, s, g, env);
  }

  lemma AgreementIsQuietInConf(d: Peer, s: Peer, g: PeerGroup, env: Defaults)
    requires Expressible(d)
    requires d.conf.peerGroup == "" ==> g == NO_GROUP
    requires StatedFieldsAgree(d, Resolve(d, g, env), Resolve(s, g, env))
    ensures var w := Resolve(s, g, env);
            ConfEqual(d.conf, w.conf) && !AuthPasswordDrifted(d, w) && AfiSafisEqual(d.afiSafis, w.afiSafis)
  {
    var v, w := Resolve(d, g, env), Resolve(s, g, env);
    assert ConfEqual(d.conf, w.conf) by {
      ConfIsExact(d.conf, w.conf, g.conf, env);
      forall f: ConfField | ConfStated(f, d.conf) ensures ConfValue(f, v.conf) == ConfValue(f, w.conf) {
        assert Stated(OfConf(f), d) && ValueOf(OfConf(f), v) == ValueOf(OfConf(f), w);
      }
    }
    assert !AuthPasswordDrifted(d, w) by {
      assert Stated(AuthPresence, d) ==> ValueOf(AuthPresence, v) == ValueOf(AuthPresence, w);
    }
    assert AfiSafisEqual(d.afiSafis, w.afiSafis) by {
      FamiliesAreExact(d.afiSafis, w.afiSafis);
      assert Stated(Families, d) ==> ValueOf(Families, v) == ValueOf(Families, w);
    }
  }

  lemma AgreementIsQuietInOwnBlocks(d: Peer, s: Peer, g: PeerGroup, env: Defaults)
    requires d.conf.peerGroup == "" ==> g == NO_GROUP
    requires StatedFieldsAgree(d, Resolve(d, g, env), Resolve(s, g, env))
    ensures var alone, w := d.conf.peerGroup == "", Resolve(s, g, env);
            && ((!alone && d.routeReflector.None?) || RouteReflectorEqual(d.routeReflector, w.routeReflector))
            && ((!alone && d.ebgpMultihop.None?) || EbgpMultihopEqual(d.ebgpMultihop, w.ebgpMultihop))
            && ((!alone && d.bfd.None?) || BfdEqual(d.bfd, w.bfd, true))
  {
    var alone := d.conf.peerGroup == "";
    var v, w := Resolve(d, g, env), Resolve(s, g, env);
    assert (!alone && d.routeReflector.None?) || RouteReflectorEqual(d.routeReflector, w.routeReflector) by {
      ReflectorIsExact(alone, d.routeReflector, w.routeReflector.value, env);
      forall f | ReflectorStated(f, alone, d.routeReflector)
        ensures ReflectorValue(f, v.routeReflector.value) == ReflectorValue(f, w.routeReflector.value) {
        assert Stated(OfReflector(f), d) && ValueOf(OfReflector(f), v) == ValueOf(OfReflector(f), w);
      }
    }
    assert (!alone && d.ebgpMultihop.None?) || EbgpMultihopEqual(d.ebgpMultihop, w.ebgpMultihop) by {
      MultihopIsExact(d.ebgpMultihop, w.ebgpMultihop.value);
      forall f: MultihopField | alone || d.ebgpMultihop.Some?
        ensures MultihopValue(f, v.ebgpMultihop.value) == MultihopValue(f, w.ebgpMultihop.value) {
        assert Stated(OfMultihop(f), d) && ValueOf(OfMultihop(f), v) == ValueOf(OfMultihop(f), w);
      }
    }
    assert (!alone && d.bfd.None?) || BfdEqual(d.bfd, w.bfd, true) by {
      BfdIsExact(d.bfd, Inherit(s.bfd, g.bfd));
      forall f: BfdField | alone || d.bfd.Some? ensures BfdValue(f, v.bfd.value) == BfdValue(f, w.bfd.value) {
        assert Stated(OfBfd(f), d) && ValueOf(OfBfd(f), v) == ValueOf(OfBfd(f), w);
      }
    }
  }

  /** Change detection, both ways: the controller updates a neighbor exactly when some field that the
      desired message states would come out differently from what the daemon shows now. */
  lemma DetectionIsExact(d: Peer, s: Peer, groups: map<string, PeerGroup>, env: Defaults)
    requires Expressible(d)
    ensures !NeedsUpdate(d, View(s, groups, env)) <==> StatedFieldsAgree(d, View(d, groups, env), View(s, groups, env))
  {
    if d.conf.peerGroup == s.conf.peerGroup {
      DetectionIsExactInGroup(d, s, GroupOf(groups, d.conf.peerGroup), env);
    } else {
      var v, w := View(d, groups, env), View(s, groups, env);
      assert Stated(OfConf(Group), d) && ValueOf(OfConf(Group), v) != ValueOf(OfConf(Group), w);
    }
  }

  // ---- the edits nobody sees ----

  /** Whether a peer sent as d takes the field from itself rather than from its group. */
  predicate Claims(f: Field, d: Peer) {
    match f
    case OfConf(cf) =>
      (match cf
       case LocalAsn => d.conf.localAsn.Some?
       case Description => d.conf.description.Some?
       case AllowOwnAsn | ReplacePeerAsn | AllowAspathLoopLocal => ClaimsAsPath(d.conf)
       case SendSoftwareVersion => d.conf.sendSoftwareVersion.Some?
       case RemovePrivateMode => d.conf.removePrivate.Some?
       case SendCommunity => d.conf.sendCommunity.Some?
       case _ => true)
    case AuthPresence => d.conf.authPassword.Some?
    case Families => d.afiSafis != []
    case ImportPolicy | ExportPolicy => d.applyPolicy.Some?
    case OfTimers(_) => d.timers.Some?
    case OfTransport(_) => d.transport.Some?
    case OfRestart(_) => d.gracefulRestart.Some?
    case OfReflector(_) => d.routeReflector.Some?
    case OfMultihop(_) => d.ebgpMultihop.Some?
    case OfBfd(_) => d.bfd.Some?
  }

  /** The four ways in which a field can change without being seen: the edit stops stating it; the edit
      moves its block between member and group; the neighbor is grouped and the field is its peer AS; or
      the field is a restart time derived from a hold time that itself changed unseen. */
  predicate Invisible(f: Field, before: Peer, after: Peer, groups: map<string, PeerGroup>, env: Defaults) {
    || (Stated(f, before) && !Stated(f, after))
    || (Claims(f, before) != Claims(f, after) && !Stated(f, after))
    || (f == OfConf(PeerAsn) && after.conf.peerGroup != "" && GroupOf(groups, after.conf.peerGroup).conf.peerAsn == 0)
    || (f == OfRestart(RestartTime) && !Stated(f, after) &&
        ValueOf(OfTimers(HoldTime), View(before, groups, env)) != ValueOf(OfTimers(HoldTime), View(after, groups, env)))
  }

  lemma UnstatedConfFieldComesFromGroup(f: ConfField, a: PeerConf, b: PeerConf, g: PeerGroupConf, env: Defaults)
    requires a.neighborInterface == b.neighborInterface && a.peerGroup == b.peerGroup
    requires f == PeerAsn ==> g.peerAsn != 0
    requires !ConfStated(f, a) && !ConfStated(f, b)
    requires f in {AllowOwnAsn, ReplacePeerAsn, AllowAspathLoopLocal} ==> ClaimsAsPath(a) == ClaimsAsPath(b)
    requires f == LocalAsn ==> a.localAsn.Some? == b.localAsn.Some?
    ensures ConfValue(f, ConfView(a, g, env)) == ConfValue(f, ConfView(b, g, env))
  {
  }

  lemma UnstatedFieldComesFromGroup(f: Field, a: Peer, b: Peer, g: PeerGroup, env: Defaults)
    requires a.conf.neighborInterface == b.conf.neighborInterface && a.conf.peerGroup == b.conf.peerGroup
    requires f == OfConf(PeerAsn) ==> g.conf.peerAsn != 0
    requires f == OfRestart(RestartTime) ==>
      TimersOf(Resolve(a, g, env).timers).holdTime == TimersOf(Resolve(b, g, env).timers).holdTime &&
      Resolve(a, g, env).gracefulRestart.value.enabled == Resolve(b, g, env).gracefulRestart.value.enabled
    requires f == OfReflector(ClusterId) ==> Resolve(a, g, env).routeReflector.value.client == Resolve(b, g, env).routeReflector.value.client
    requires !Stated(f, a) && !Stated(f, b) && Claims(f, a) == Claims(f, b)
    ensures ValueOf(f, Resolve(a, g, env)) == ValueOf(f, Resolve(b, g, env))
  {
    hide ConfView, TimersView, GracefulView, ConfValue, TimersValue, TransportValue, RestartValue;
    match f
    case OfConf(cf) => UnstatedConfFieldComesFromGroup(cf, a.conf, b.conf, g.conf, env);
    case AuthPresence =>
    case Families =>
    case ImportPolicy =>
    case ExportPolicy =>
    case OfTimers(tf) => UnstatedTimer(tf, a.timers, b.timers, g.timers, env);
    case OfTransport(tf) => UnstatedTransport(tf, a.conf.peerGroup == "", a.transport, b.transport, g.transport, env);
    case OfRestart(rf) => UnstatedRestart(rf, a.conf.peerGroup == "", a.gracefulRestart, b.gracefulRestart, g.gracefulRestart,
                                          TimersOf(Resolve(a, g, env).timers).holdTime, TimersOf(Resolve(b, g, env).timers).holdTime);
    case OfReflector(rf) =>
    case OfMultihop(mf) =>
    case OfBfd(bf) =>
  }

  lemma UnstatedTimer(f: TimersField, a: Option<Timers>, b: Option<Timers>, g: Option<Timers>, env: Defaults)
    requires a.Some? == b.Some? && TimersValue(f, TimersOf(a)) == 0 && TimersValue(f, TimersOf(b)) == 0
    ensures TimersValue(f, TimersView(Inherit(a, g), env)) == TimersValue(f, TimersView(Inherit(b, g), env))
  {
  }

  lemma UnstatedTransport(f: TransportField, alone: bool, a: Option<Transport>, b: Option<Transport>, g: Option<Transport>, env: Defaults)
    requires a.Some? == b.Some? && !TransportStated(f, alone, a) && !TransportStated(f, alone, b)
    ensures TransportValue(f, TransportView(Inherit(a, g), env.localAddress)) == TransportValue(f, TransportView(Inherit(b, g), env.localAddress))
  {
  }

  lemma UnstatedRestart(f: RestartField, alone: bool, a: Option<GracefulRestart>, b: Option<GracefulRestart>,
                        g: Option<GracefulRestart>, holdA: uint64, holdB: uint64)
    requires a.Some? == b.Some? && !RestartStated(f, alone, a) && !RestartStated(f, alone, b)
    requires f == RestartTime ==>
      holdA == holdB && GracefulView(Inherit(a, g), holdA).enabled == GracefulView(Inherit(b, g), holdB).enabled
    ensures RestartValue(f, GracefulView(Inherit(a, g), holdA)) == RestartValue(f, GracefulView(Inherit(b, g), holdB))
  {
  }

  /** An edit that the controller lets pass although it would change a field changes it in one of those ways. */
  lemma UnseenEditsAreInvisible(before: Peer, after: Peer, groups: map<string, PeerGroup>, env: Defaults, f: Field)
    requires Expressible(after)
    requires !NeedsUpdate(after, View(before, groups, env))
    requires ValueOf(f, View(after, groups, env)) != ValueOf(f, View(before, groups, env))
    ensures !Stated(f, after) && Invisible(f, before, after, groups, env)
  {
    DetectionIsExact(after, before, groups, env);
    var v, w := View(after, groups, env), View(before, groups, env);
    assert !Stated(f, after);
    if !Invisible(f, before, after, groups, env) {
      SharedIdentity(before, after, groups, env);
      if f == OfRestart(RestartTime) {
        RestartEnabledAgrees(before, after, groups, env);
      } else if f == OfReflector(ClusterId) {
        ClientAgrees(before, after, groups, env);
      }
      UnstatedFieldComesFromGroup(f, after, before, GroupOf(groups, after.conf.peerGroup), env);
    }
  }

  lemma SharedIdentity(before: Peer, after: Peer, groups: map<string, PeerGroup>, env: Defaults)
    requires StatedFieldsAgree(after, View(after, groups, env), View(before, groups, env))
    ensures after.conf.peerGroup == before.conf.peerGroup && after.conf.neighborInterface == before.conf.neighborInterface
  {
    var v, w := View(after, groups, env), View(before, groups, env);
    assert Stated(OfConf(Group), after) && ValueOf(OfConf(Group), v) == ValueOf(OfConf(Group), w);
    assert Stated(OfConf(Interface), after) && ValueOf(OfConf(Interface), v) == ValueOf(OfConf(Interface), w);
  }

  lemma RestartEnabledAgrees(before: Peer, after: Peer, groups: map<string, PeerGroup>, env: Defaults)
    requires StatedFieldsAgree(after, View(after, groups, env), View(before, groups, env))
    requires after.gracefulRestart.Some? == before.gracefulRestart.Some?
    ensures View(after, groups, env).gracefulRestart.value.enabled == View(before, groups, env).gracefulRestart.value.enabled
  {
    SharedIdentity(before, after, groups, env);
    var v, w := View(after, groups, env), View(before, groups, env);
    var f := OfRestart(RestartEnabled);
    assert Stated(f, after) ==> ValueOf(f, v) == ValueOf(f, w);
  }

  lemma ClientAgrees(before: Peer, after: Peer, groups: map<string, PeerGroup>, env: Defaults)
    requires StatedFieldsAgree(after, View(after, groups, env), View(before, groups, env))
    requires after.routeReflector.Some? == before.routeReflector.Some?
    ensures View(after, groups, env).routeReflector.value.client == View(before, groups, env).routeReflector.value.client
  {
    SharedIdentity(before, after, groups, env);
    var v, w := View(after, groups, env), View(before, groups, env);
    var f := OfReflector(ReflectorClient);
    assert Stated(f, after) ==> ValueOf(f, v) == ValueOf(f, w);
  }

  /** Editing nothing but the peer AS: seen only outside every group, effective wherever the group states
      none. A grouped member's edit under a group without a peer AS is therefore lost. */
  lemma PeerAsnEdit(before: Peer, asn: uint32, groups: map<string, PeerGroup>, env: Defaults)
    requires Expressible(before)
    ensures var after := before.(conf := before.conf.(peerAsn := asn));
            && (NeedsUpdate(after, View(before, groups, env)) <==> before.conf.peerGroup == "" && asn != before.conf.peerAsn)
            && (View(after, groups, env) != View(before, groups, env) <==>
                asn != before.conf.peerAsn && GroupOf(groups, before.conf.peerGroup).conf.peerAsn == 0)
  {
    var after := before.(conf := before.conf.(peerAsn := asn));
    var w := View(before, groups, env);
    StoredPeerIsQuietIff(before, groups, env);
    assert NeedsUpdate(after, w) <==> !ConfEqual(after.conf, w.conf);
    assert View(after, groups, env) == w.(conf := View(after, groups, env).conf);
  }

  /** Such a lost edit: 64512 becomes 64513 in a group that states no peer AS. */
  lemma GroupedPeerAsnEditIsLost(before: Peer, g: PeerGroup, env: Defaults)
    requires Expressible(before) && before.conf.peerGroup != "" && before.conf.peerAsn == 64512 && g.conf.peerAsn == 0
    ensures var after := before.(conf := before.conf.(peerAsn := 64513));
            var groups := map[before.conf.peerGroup := g];
            && !NeedsUpdate(after, View(before, groups, env))
            && ValueOf(OfConf(PeerAsn), View(before, groups, env)) == Number(64512)
            && ValueOf(OfConf(PeerAsn), View(after, groups, env)) == Number(64513)
  {
    PeerAsnEdit(before, 64513, map[before.conf.peerGroup := g], env);
  }

  /** Starting to state a timers block inside a group: seen exactly when a non-zero timer differs from what is
      in effect, effective exactly when any timer, stated or not, would come out differently. */
  lemma ClaimingTimers(before: Peer, t: TimersConfig, groups: map<string, PeerGroup>, env: Defaults)
    requires Expressible(before) && before.timers.None?
    ensures var after := before.(timers := Some(Timers(Some(t))));
            var now := TimersOf(View(before, groups, env).timers);
            && (NeedsUpdate(after, View(before, groups, env)) <==>
                (t.connectRetry != 0 && t.connectRetry != now.connectRetry) ||
                (t.holdTime != 0 && t.holdTime != now.holdTime) ||
                (t.keepaliveInterval != 0 && t.keepaliveInterval != now.keepaliveInterval))
            && (View(after, groups, env).timers != View(before, groups, env).timers <==>
                TimersView(after.timers, env) != TimersView(GroupOf(groups, before.conf.peerGroup).timers, env))
  {
    var after := before.(timers := Some(Timers(Some(t))));
    var w := View(before, groups, env);
    StoredPeerIsQuietIff(before, groups, env);
    assert NeedsUpdate(after, w) <==> !TimersEqual(after.timers, w.timers);
  }

  /** Editing the three as-path fields, which share one presence signal: seen exactly when a stated one differs
      from what is in effect, effective exactly when any of the three would come out differently. */
  lemma AsPathEdit(before: Peer, allow: Option<uint32>, replace: Option<bool>, loop: Option<bool>,
                   groups: map<string, PeerGroup>, env: Defaults)
    requires Expressible(before)
    ensures var conf := before.conf.(allowOwnAsn := allow, replacePeerAsn := replace, allowAspathLoopLocal := loop);
            var now := View(before, groups, env).conf;
            var g := GroupOf(groups, before.conf.peerGroup).conf;
            && (NeedsUpdate(before.(conf := conf), View(before, groups, env)) <==>
                (allow.Some? && allow != now.allowOwnAsn) || (replace.Some? && replace != now.replacePeerAsn) ||
                (loop.Some? && loop != now.allowAspathLoopLocal))
            && (View(before.(conf := conf), groups, env) != View(before, groups, env) <==>
                if ClaimsAsPath(conf)
                then (Some(allow.GetOr(0)), Some(replace.GetOr(false)), Some(loop.GetOr(false)))
                     != (now.allowOwnAsn, now.replacePeerAsn, now.allowAspathLoopLocal)
                else (Some(g.allowOwnAsn), Some(g.replacePeerAsn), Some(g.allowAspathLoopLocal))
                     != (now.allowOwnAsn, now.replacePeerAsn, now.allowAspathLoopLocal))
  {
    var after := before.(conf := before.conf.(allowOwnAsn := allow, replacePeerAsn := replace, allowAspathLoopLocal := loop));
    var w := View(before, groups, env);
    StoredPeerIsQuietIff(before, groups, env);
    assert NeedsUpdate(after, w) <==> !ConfEqual(after.conf, w.conf);
    assert View(after, groups, env) == w.(conf := View(after, groups, env).conf);
  }

  /** Editing the transport block: a grouped neighbor that drops it is never seen; otherwise an edit is seen
      exactly when a field differs from what is in effect, where an omitted local address counts for nothing.
      It is effective exactly when the block would come out differently, so dropping a local address in favour
      of the group's or the daemon's is effective unseen. */
  lemma TransportEdit(before: Peer, t: Option<Transport>, groups: map<string, PeerGroup>, env: Defaults)
    requires Expressible(before)
    ensures var after := before.(transport := t);
            var d, now := t.GetOr(ZERO_TRANSPORT), View(before, groups, env).transport.value;
            && (NeedsUpdate(after, View(before, groups, env)) <==>
                (before.conf.peerGroup == "" || t.Some?) &&
                ((d.localAddress != "" && d.localAddress != now.localAddress) || d.passiveMode != now.passiveMode ||
                 d.bindInterface != now.bindInterface || d.ipTos != now.ipTos))
            && (View(after, groups, env) != View(before, groups, env) <==>
                TransportView(Inherit(t, GroupOf(groups, before.conf.peerGroup).transport), env.localAddress) != now)
  {
    var after := before.(transport := t);
    var w := View(before, groups, env);
    StoredPeerIsQuietIff(before, groups, env);
    assert NeedsUpdate(after, w) <==>
           (before.conf.peerGroup == "" || t.Some?) && !TransportEqual(after.transport, w.transport);
    assert View(after, groups, env) == w.(transport := View(after, groups, env).transport);
  }

  /** Editing the graceful-restart block, likewise, where an omitted restart time counts for nothing. */
  lemma RestartEdit(before: Peer, r: Option<GracefulRestart>, groups: map<string, PeerGroup>, env: Defaults)
    requires Expressible(before)
    ensures var after := before.(gracefulRestart := r);
            var d, now := r.GetOr(ZERO_GRACEFUL), View(before, groups, env).gracefulRestart.value;
            && (NeedsUpdate(after, View(before, groups, env)) <==>
                (before.conf.peerGroup == "" || r.Some?) &&
                (d.enabled != now.enabled || d.helperOnly != now.helperOnly || d.staleRoutesTime != now.staleRoutesTime ||
                 (d.restartTime != 0 && d.restartTime != now.restartTime)))
            && (View(after, groups, env) != View(before, groups, env) <==>
                GracefulView(Inherit(r, GroupOf(groups, before.conf.peerGroup).gracefulRestart),
                             TimersOf(View(before, groups, env).timers).holdTime) != now)
  {
    var after := before.(gracefulRestart := r);
    var w := View(before, groups, env);
    StoredPeerIsQuietIff(before, groups, env);
    assert NeedsUpdate(after, w) <==>
           (before.conf.peerGroup == "" || r.Some?) && !GracefulRestartEqual(after.gracefulRestart, w.gracefulRestart);
    assert View(after, groups, env) == w.(gracefulRestart := View(after, groups, env).gracefulRestart);
  }

  /** Editing the route-reflector block, which no group has: an omitted cluster ID is not compared, so dropping one
      is effective unseen unless it was what the daemon fills in anyway. */
  lemma ReflectorEdit(before: Peer, r: Option<RouteReflector>, groups: map<string, PeerGroup>, env: Defaults)
    requires Expressible(before)
    ensures var after := before.(routeReflector := r);
            var d, now := r.GetOr(ZERO_REFLECTOR), View(before, groups, env).routeReflector.value;
            && (NeedsUpdate(after, View(before, groups, env)) <==>
                (before.conf.peerGroup == "" || r.Some?) &&
                (d.client != now.client || (d.clusterId != "" && d.clusterId != now.clusterId)))
            && (View(after, groups, env) != View(before, groups, env) <==> ReflectorView(r, env) != now)
  {
    var after := before.(routeReflector := r);
    var w := View(before, groups, env);
    StoredPeerIsQuietIff(before, groups, env);
    assert NeedsUpdate(after, w) <==>
           (before.conf.peerGroup == "" || r.Some?) && !RouteReflectorEqual(after.routeReflector, w.routeReflector);
    assert View(after, groups, env) == w.(routeReflector := View(after, groups, env).routeReflector);
  }

  /** Editing the local AS: an omitted one, or zero, is not compared. */
  lemma LocalAsnEdit(before: Peer, asn: Option<uint32>, groups: map<string, PeerGroup>, env: Defaults)
    requires Expressible(before)
    ensures var after := before.(conf := before.conf.(localAsn := asn));
            var now := View(before, groups, env).conf.localAsn;
            && (NeedsUpdate(after, View(before, groups, env)) <==> asn.GetOr(0) != 0 && asn != now)
            && (View(after, groups, env) != View(before, groups, env) <==>
                Some(Default32(asn.GetOr(GroupOf(groups, before.conf.peerGroup).conf.localAsn), env.globalAsn)) != now)
  {
    var after := before.(conf := before.conf.(localAsn := asn));
    var w := View(before, groups, env);
    StoredPeerIsQuietIff(before, groups, env);
    assert NeedsUpdate(after, w) <==> !ConfEqual(after.conf, w.conf);
    assert View(after, groups, env) == w.(conf := View(after, groups, env).conf);
  }

  /** Editing the description: an omitted one is not compared, an empty one is. */
  lemma DescriptionEdit(before: Peer, text: Option<string>, groups: map<string, PeerGroup>, env: Defaults)
    requires Expressible(before)
    ensures var after := before.(conf := before.conf.(description := text));
            var now := View(before, groups, env).conf.description;
            && (NeedsUpdate(after, View(before, groups, env)) <==> text.Some? && text != now)
            && (View(after, groups, env) != View(before, groups, env) <==>
                Some(text.GetOr(GroupOf(groups, before.conf.peerGroup).conf.description)) != now)
  {
    var after := before.(conf := before.conf.(description := text));
    var w := View(before, groups, env);
    StoredPeerIsQuietIff(before, groups, env);
    assert NeedsUpdate(after, w) <==> !ConfEqual(after.conf, w.conf);
    assert View(after, groups, env) == w.(conf := View(after, groups, env).conf);
  }

  /** Editing the address families: an empty list is not compared, and of an entry neither prefix limit nor
      add-paths, so an edit of these alone is effective unseen. */
  lemma FamiliesEdit(before: Peer, families: seq<AfiSafi>, groups: map<string, PeerGroup>, env: Defaults)
    requires Expressible(before) && Expressible(before.(afiSafis := families))
    ensures var after := before.(afiSafis := families);
            var g, now := GroupOf(groups, before.conf.peerGroup), View(before, groups, env).afiSafis;
            && (NeedsUpdate(after, View(before, groups, env)) <==>
                families != [] && FamilyConfigs(families) != FamilyConfigs(now))
            && (View(after, groups, env) != View(before, groups, env) <==>
                (if families != [] then families else if g.afiSafis != [] then g.afiSafis else env.families) != now)
  {
    var after := before.(afiSafis := families);
    var w := View(before, groups, env);
    StoredPeerIsQuietIff(before, groups, env);
    FamiliesAreExact(families, w.afiSafis);
    assert NeedsUpdate(after, w) <==> !AfiSafisEqual(after.afiSafis, w.afiSafis);
    assert View(after, groups, env) == w.(afiSafis := View(after, groups, env).afiSafis);
  }

  /** Editing the timers changes the restart time as well exactly when it is derived, graceful restart being
      enabled without one, and the hold time comes out differently in 32 bits. */
  lemma RestartTimeFollowsHoldTime(before: Peer, t: Option<Timers>, groups: map<string, PeerGroup>, env: Defaults)
    ensures var after := before.(timers := t);
            var g := Inherit(before.gracefulRestart, GroupOf(groups, before.conf.peerGroup).gracefulRestart).GetOr(ZERO_GRACEFUL);
            View(after, groups, env).gracefulRestart != View(before, groups, env).gracefulRestart <==>
            g.enabled && g.restartTime == 0 &&
            TimersOf(View(after, groups, env).timers).holdTime % 0x1_0000_0000
            != TimersOf(View(before, groups, env).timers).holdTime % 0x1_0000_0000
  {
  }

  /** The gap the sources name, a field no longer stated, is not the only one: a member that
      starts to state connectRetry, as the default it already has, gives up its group's hold time unseen. */
  lemma ClaimingABlockCanBeUnseen(before: Peer, g: PeerGroup, env: Defaults)
    requires Expressible(before) && before.conf.peerGroup != "" && before.timers.None?
    requires g.timers == Some(Timers(Some(TimersConfig(0, 30, 10))))
    requires env.connectRetry == 120 && env.holdTime == 90 && env.keepaliveInterval == 30
    ensures var after := before.(timers := Some(Timers(Some(TimersConfig(120, 0, 0)))));
            var groups := map[before.conf.peerGroup := g];
            && !NeedsUpdate(after, View(before, groups, env))
            && ValueOf(OfTimers(HoldTime), View(before, groups, env)) == Number(30)
            && ValueOf(OfTimers(HoldTime), View(after, groups, env)) == Number(90)
            && !Stated(OfTimers(HoldTime), before) && !Stated(OfTimers(HoldTime), after)
  {
    ClaimingTimers(before, TimersConfig(120, 0, 0), map[before.conf.peerGroup := g], env);
  }
}
