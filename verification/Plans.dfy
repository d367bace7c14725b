/** What one reconcile pass is asked to bring about, and what a pass without failures makes of the daemon. */
module Plans {
  import opened Wrappers
  import opened Messages
  import opened Converters
  import opened Echo
  import opened Comparators
  import opened Daemon
  import opened ChangeDetection
  import opened Desired
  import opened Effect
  import NoChurn

  /** A desired set fit to be sent: keyed by its own keys, and expressible. */
  ghost predicate Sound(desired: map<string, Peer>) {
    forall k :: k in desired ==> PeerKey(desired[k].conf) == k && Expressible(desired[k])
  }

  ghost predicate SoundGroups(desired: map<string, PeerGroup>) {
    forall n :: n in desired ==> desired[n].conf.peerGroupName == n && GroupExpressible(desired[n])
  }

  lemma {:induction false} DesiredNeighborsAreSound(ns: seq<Neighbor>, groups: map<string, PeerGroup>, world: World)
    ensures DesiredNeighbors(ns, groups, world).Ok? ==> Sound(DesiredNeighbors(ns, groups, world).value)
  {
    if ns != [] {
      DesiredNeighborsAreSound(ns[..|ns| - 1], groups, world);
    }
  }

  lemma {:induction false} DesiredGroupsAreSound(gs: seq<PeerGroupSpec>, world: World)
    ensures DesiredGroups(gs, world).Ok? ==> SoundGroups(DesiredGroups(gs, world).value)
  {
    if gs != [] {
      DesiredGroupsAreSound(gs[..|gs| - 1], world);
    }
  }

  // ---- what is reported as inherited ----

  /** The blocks each neighbor is reported to inherit; an entry is written only when there are some. */
  function InheritedMap(ns: seq<Neighbor>, groups: map<string, PeerGroup>, world: World): map<string, seq<Block>> {
    if ns == [] then map[]
    else
      var m := InheritedMap(ns[..|ns| - 1], groups, world);
      match AdmitNeighbor(ns[|ns| - 1], groups, world)
      case Taken(p) => if InheritedBlocks(p) != [] then m[PeerKey(p.conf) := InheritedBlocks(p)] else m
      case _ => m
  }

  /** Entry i is applied on this node and leaves something to its group. */
  ghost predicate Inherits(ns: seq<Neighbor>, i: nat, groups: map<string, PeerGroup>, world: World)
    requires i < |ns|
  {
    var a := AdmitNeighbor(ns[i], groups, world);
    a.Taken? && InheritedBlocks(a.message) != []
  }

  /** The reported blocks are those of the peers that are sent. */
  ghost predicate InheritedExactly(m: map<string, seq<Block>>, desired: map<string, Peer>) {
    && (forall k :: k in m <==> k in desired && InheritedBlocks(desired[k]) != [])
    && (forall k :: k in m && k in desired ==> m[k] == InheritedBlocks(desired[k]))
  }

  /** The keys of the entries that inherit something. */
  ghost function InheritingKeys(ns: seq<Neighbor>, groups: map<string, PeerGroup>, world: World): set<string> {
    if ns == [] then {}
    else
      InheritingKeys(ns[..|ns| - 1], groups, world) +
      if Inherits(ns, |ns| - 1, groups, world) then {KeyFromConfig(ns[|ns| - 1].config)} else {}
  }

  lemma {:induction false} InheritingKeysAre(ns: seq<Neighbor>, groups: map<string, PeerGroup>, world: World, k: string)
    ensures k in InheritingKeys(ns, groups, world) <==>
            exists i :: 0 <= i < |ns| && KeyFromConfig(ns[i].config) == k && Inherits(ns, i, groups, world)
  {
    hide KeyFromConfig, InheritedBlocks, AdmitNeighbor;
    if ns != [] {
      var n := |ns| - 1;
      InheritingKeysAre(ns[..n], groups, world, k);
      assert forall i :: 0 <= i < n ==> ns[..n][i] == ns[i];
      assert forall i :: 0 <= i < n ==> Inherits(ns[..n], i, groups, world) == Inherits(ns, i, groups, world);
    }
  }

  /** The report has the inheriting keys, and is right where the sent peer inherits at all. */
  ghost predicate InheritedSoFar(keys: set<string>, m: map<string, seq<Block>>, desired: map<string, Peer>) {
    && m.Keys == keys && keys <= desired.Keys
    && (forall k :: k in desired && InheritedBlocks(desired[k]) != [] ==> k in m && m[k] == InheritedBlocks(desired[k]))
  }

  lemma {:induction false} InheritedMapSoFar(ns: seq<Neighbor>, groups: map<string, PeerGroup>, world: World)
    requires DesiredNeighbors(ns, groups, world).Ok?
    ensures InheritedSoFar(InheritingKeys(ns, groups, world), InheritedMap(ns, groups, world), DesiredNeighbors(ns, groups, world).value)
  {
    hide AdmitNeighbor, InheritedBlocks, KeyFromConfig;
    if ns != [] {
      InheritedMapSoFar(ns[..|ns| - 1], groups, world);
      TakenKey(ns[|ns| - 1], groups, world);
    }
  }

  /** The status tells exactly what the sent peers inherit, unless an entry that inherits is replaced by a later
      one of the same key that inherits nothing: then the earlier entry's blocks are still reported. */
  lemma InheritedReportIsExactIff(ns: seq<Neighbor>, groups: map<string, PeerGroup>, world: World)
    requires DesiredNeighbors(ns, groups, world).Ok?
    ensures var desired := DesiredNeighbors(ns, groups, world).value;
      InheritedExactly(InheritedMap(ns, groups, world), desired) <==>
      forall i :: 0 <= i < |ns| && Inherits(ns, i, groups, world) ==>
        KeyFromConfig(ns[i].config) in desired && InheritedBlocks(desired[KeyFromConfig(ns[i].config)]) != []
  {
    hide AdmitNeighbor, InheritedBlocks, DesiredNeighbors, InheritedMap, InheritingKeys, KeyFromConfig, Inherits;
    InheritedMapSoFar(ns, groups, world);
    forall k: string {
      InheritingKeysAre(ns, groups, world, k);
    }
  }

  /** Such a replacement at an input: a grouped entry that states no block, then the same address in no group.
      The peer that is sent inherits nothing, and all six blocks are reported as inherited. */
  lemma ReplacedEntryIsStillReported(n: Neighbor, groups: map<string, PeerGroup>, world: World)
    requires n.config.peerGroup != "" && n.config.peerGroup in groups
    requires n.nodeSelector.None? && n.config.authPasswordSecretRef.None?
    requires n.afiSafis == [] && n.applyPolicy.None? && n.bfd.None? && n.gracefulRestart.None? && n.timers.None? && n.transport.None?
    ensures var ns := [n, n.(config := n.config.(peerGroup := ""))];
      var key := KeyFromConfig(n.config);
      var desired := DesiredNeighbors(ns, groups, world);
      && desired.Ok? && desired.value.Keys == {key} && InheritedBlocks(desired.value[key]) == []
      && InheritedMap(ns, groups, world)
         == map[key := [AfiSafisBlock, ApplyPolicyBlock, BfdBlock, GracefulRestartBlock, TimersBlock, TransportBlock]]
      && !InheritedExactly(InheritedMap(ns, groups, world), desired.value)
  {
    var m := n.(config := n.config.(peerGroup := ""));
    var ns := [n, m];
    assert ns[..1] == [n] && [n][..0] == [];
    var p, q := ToPeer(n, n.config.authPassword), ToPeer(m, n.config.authPassword);
    assert AdmitNeighbor(n, groups, world) == Taken(p) && AdmitNeighbor(m, groups, world) == Taken(q);
    ConvertedKey(n, n.config.authPassword);
    ConvertedKey(m, n.config.authPassword);
    hide ToPeer, AdmitNeighbor;
    var first := map[KeyFromConfig(n.config) := p];
    assert DesiredNeighbors([n], groups, world) == Ok(first);
    assert first[KeyFromConfig(n.config) := q] == map[KeyFromConfig(n.config) := q];
    assert InheritedBlocks(p) == [AfiSafisBlock, ApplyPolicyBlock, BfdBlock, GracefulRestartBlock, TimersBlock, TransportBlock];
    assert InheritedMap([n], groups, world) == map[KeyFromConfig(n.config) := InheritedBlocks(p)];
  }

  // ---- neighbors ----

  /** Desired peers by key, and the dynamic-neighbor ranges of the configuration. */
  datatype Goal = Goal(desired: map<string, Peer>, prefixes: seq<string>, contains: (string, string) -> bool)

  predicate InRange(address: string, prefixes: seq<string>, contains: (string, string) -> bool) {
    exists i :: 0 <= i < |prefixes| && contains(prefixes[i], address)
  }

  /** isDynamicallyAcceptedPeer, on the address the daemon reports. An interface peer is reported with its
      resolved link-local address, so a range that covers it keeps such a peer too. */
  predicate Kept(s: Peer, goal: Goal, env: Defaults) {
    InRange(ReportedAddress(s.conf, env), goal.prefixes, goal.contains)
  }

  /** So an interface peer counts as dynamically accepted exactly when a range covers its link-local address. */
  lemma InterfacePeerKeptIff(s: Peer, goal: Goal, env: Defaults)
    requires s.conf.neighborInterface != ""
    ensures Kept(s, goal, env) <==> InRange(env.linkLocal(s.conf.neighborInterface), goal.prefixes, goal.contains)
  {
  }

  predicate Unwanted(k: string, peers: map<string, Peer>, goal: Goal, env: Defaults) {
    k in peers && k !in goal.desired && !Kept(peers[k], goal, env)
  }

  predicate Drifted(k: string, peers: map<string, Peer>, groups: map<string, PeerGroup>, goal: Goal, env: Defaults) {
    k in peers && k in goal.desired && NeedsUpdate(goal.desired[k], View(peers[k], groups, env))
  }

  /** The keys that are unwanted, missing or drifted. */
  function Work(peers: map<string, Peer>, groups: map<string, PeerGroup>, goal: Goal, env: Defaults): set<string> {
    set k | k in peers.Keys + goal.desired.Keys &&
            (Unwanted(k, peers, goal, env) || k !in peers || Drifted(k, peers, groups, goal, env))
  }

  /** What a pass without failures leaves: desired peers, the stored one where it does not drift, and kept ones. */
  function Settled(peers: map<string, Peer>, groups: map<string, PeerGroup>, goal: Goal, env: Defaults): map<string, Peer> {
    map k | k in peers.Keys + goal.desired.Keys && !Unwanted(k, peers, goal, env) ::
      if k in peers && !Drifted(k, peers, groups, goal, env) then peers[k] else goal.desired[k]
  }

  lemma DeletingShrinksWork(k: string, peers: map<string, Peer>, groups: map<string, PeerGroup>, goal: Goal, env: Defaults)
    requires Unwanted(k, peers, goal, env)
    ensures |Work(peers - {k}, groups, goal, env)| + 1 == |Work(peers, groups, goal, env)|
  {
    assert k in Work(peers, groups, goal, env);
    assert Work(peers - {k}, groups, goal, env) == Work(peers, groups, goal, env) - {k};
  }

  lemma SendingShrinksWork(k: string, peers: map<string, Peer>, groups: map<string, PeerGroup>, goal: Goal, env: Defaults)
    requires k in goal.desired && Expressible(goal.desired[k])
    requires k !in peers || Drifted(k, peers, groups, goal, env)
    ensures |Work(peers[k := goal.desired[k]], groups, goal, env)| + 1 == |Work(peers, groups, goal, env)|
  {
    NoChurn.StoredPeerIsQuietIff(goal.desired[k], groups, env);
    assert k in Work(peers, groups, goal, env);
    assert Work(peers[k := goal.desired[k]], groups, goal, env) == Work(peers, groups, goal, env) - {k};
  }

  lemma SettledPeerIsQuiet(k: string, peers: map<string, Peer>, groups: map<string, PeerGroup>, goal: Goal, env: Defaults)
    requires Sound(goal.desired)
    requires k in Settled(peers, groups, goal, env)
    ensures var p := Settled(peers, groups, goal, env);
            !Unwanted(k, p, goal, env) && !Drifted(k, p, groups, goal, env)
  {
    if k in goal.desired {
      NoChurn.StoredPeerIsQuietIff(goal.desired[k], groups, env);
    }
    hide NeedsUpdate, View, Kept;
  }

  /** After a pass nothing is left to do, so a further pass with the same configuration writes nothing and
      changes nothing; and the daemon's keys are the desired ones and the kept ones. */
  lemma SettledIsQuiet(peers: map<string, Peer>, groups: map<string, PeerGroup>, goal: Goal, env: Defaults)
    requires Sound(goal.desired)
    ensures var p := Settled(peers, groups, goal, env);
            && Work(p, groups, goal, env) == {}
            && Settled(p, groups, goal, env) == p
            && p.Keys == goal.desired.Keys + set k | k in peers && Kept(peers[k], goal, env)
  {
    hide NeedsUpdate, View, Kept, Sound;
    var p := Settled(peers, groups, goal, env);
    forall k | k in p
      ensures !Unwanted(k, p, goal, env) && !Drifted(k, p, groups, goal, env)
    {
      SettledPeerIsQuiet(k, peers, groups, goal, env);
    }
  }

  /** An interface peer that leaves the spec is gone after a pass exactly when no range covers its link-local
      address. */
  lemma DroppedInterfacePeerGoesIff(k: string, peers: map<string, Peer>, groups: map<string, PeerGroup>, goal: Goal, env: Defaults)
    requires k in peers && k !in goal.desired && peers[k].conf.neighborInterface != ""
    ensures k !in Settled(peers, groups, goal, env) <==>
            !InRange(env.linkLocal(peers[k].conf.neighborInterface), goal.prefixes, goal.contains)
  {
    InterfacePeerKeptIff(peers[k], goal, env);
    hide Kept, Drifted, InRange;
  }

  /** Such a peer at an input: eth0 resolves to fe80::1, the range fe80::/10 is configured for dynamic
      neighbors, and a configuration without neighbors keeps the peer in every further pass. */
  lemma LinkLocalRangeKeepsDroppedPeer(p: Peer, groups: map<string, PeerGroup>, contains: (string, string) -> bool, env: Defaults)
    requires p.conf.neighborInterface == "eth0" && env.linkLocal("eth0") == "fe80::1" && contains("fe80::/10", "fe80::1")
    ensures var peers := map["iface:eth0" := p];
      var goal := Goal(map[], ["fe80::/10"], contains);
      Work(peers, groups, goal, env) == {} && Settled(peers, groups, goal, env) == peers
  {
    var peers := map["iface:eth0" := p];
    var goal := Goal(map[], ["fe80::/10"], contains);
    assert goal.prefixes[0] == "fe80::/10";
    DroppedInterfacePeerGoesIff("iface:eth0", peers, groups, goal, env);
    QuietIffSettled(peers, groups, goal, env);
    hide Kept, Drifted;
    assert Settled(peers, groups, goal, env).Keys == {"iface:eth0"};
  }

  /** Nothing to do exactly when the daemon already is what a pass would make of it. */
  lemma QuietIffSettled(peers: map<string, Peer>, groups: map<string, PeerGroup>, goal: Goal, env: Defaults)
    requires Sound(goal.desired)
    ensures Work(peers, groups, goal, env) == {} <==> Settled(peers, groups, goal, env) == peers
  {
    hide NeedsUpdate, View, Kept, Sound;
    var p := Settled(peers, groups, goal, env);
    if Work(peers, groups, goal, env) == {} {
      forall k | k in peers.Keys + goal.desired.Keys
        ensures k in peers && k in p && p[k] == peers[k]
      {
        assert k !in Work(peers, groups, goal, env);
      }
    } else if p == peers {
      var k :| k in Work(peers, groups, goal, env);
      SettledIsQuiet(peers, groups, goal, env);
    }
  }

  // ---- peer groups ----

  predicate GroupDrifted(n: string, groups: map<string, PeerGroup>, desired: map<string, PeerGroup>, env: Defaults) {
    n in groups && n in desired && !PeerGroupConfigEqual(desired[n], GroupView(groups[n], env))
  }

  /** The desired names that are missing or drifted. */
  function ToSend(groups: map<string, PeerGroup>, desired: map<string, PeerGroup>, env: Defaults): set<string> {
    set n | n in desired && (n !in groups || GroupDrifted(n, groups, desired, env))
  }

  /** Those, and the unwanted names, which are tried even when they still have members. */
  function GroupWork(groups: map<string, PeerGroup>, desired: map<string, PeerGroup>, env: Defaults): set<string> {
    (groups.Keys - desired.Keys) + ToSend(groups, desired, env)
  }

  /** What a pass without failures leaves: the desired groups, and unwanted ones that still have members. */
  function SettledGroups(groups: map<string, PeerGroup>, peers: map<string, Peer>, desired: map<string, PeerGroup>,
                         env: Defaults): map<string, PeerGroup> {
    map n | n in groups.Keys + desired.Keys && (n in desired || HasMembers(n, peers)) ::
      if n in groups && !GroupDrifted(n, groups, desired, env) then groups[n] else desired[n]
  }

  lemma DisjointUnionSize(a: set<string>, b: set<string>)
    requires a !! b
    ensures |a + b| == |a| + |b|
  {
  }

  lemma GroupWorkSplits(groups: map<string, PeerGroup>, desired: map<string, PeerGroup>, env: Defaults)
    ensures |GroupWork(groups, desired, env)| == |groups.Keys - desired.Keys| + |ToSend(groups, desired, env)|
  {
    hide GroupDrifted;
    DisjointUnionSize(groups.Keys - desired.Keys, ToSend(groups, desired, env));
  }

  lemma SameToSend(mid: map<string, PeerGroup>, before: map<string, PeerGroup>, desired: map<string, PeerGroup>, env: Defaults)
    requires forall n :: n in desired ==> (n in mid <==> n in before)
    requires forall n :: n in mid ==> n in before && mid[n] == before[n]
    ensures ToSend(mid, desired, env) == ToSend(before, desired, env)
  {
    hide PeerGroupConfigEqual, GroupView;
  }

  lemma OneFewer(n: string, keys: set<string>, desired: set<string>)
    requires n in keys && n !in desired
    ensures |keys - {n} - desired| + 1 == |keys - desired|
  {
    assert keys - {n} - desired == keys - desired - {n};
  }

  lemma KeysWithout(groups: map<string, PeerGroup>, n: string)
    ensures (groups - {n}).Keys == groups.Keys - {n}
  {
  }

  lemma DeletingShrinksGroupWork(n: string, groups: map<string, PeerGroup>, desired: map<string, PeerGroup>, env: Defaults)
    requires n in groups && n !in desired
    ensures |GroupWork(groups - {n}, desired, env)| + 1 == |GroupWork(groups, desired, env)|
  {
    hide GroupWork, ToSend;
    GroupWorkSplits(groups, desired, env);
    GroupWorkSplits(groups - {n}, desired, env);
    SameToSend(groups - {n}, groups, desired, env);
    KeysWithout(groups, n);
    OneFewer(n, groups.Keys, desired.Keys);
  }

  lemma SentIsNotToSend(n: string, groups: map<string, PeerGroup>, desired: map<string, PeerGroup>, env: Defaults)
    requires n in desired && Encodable(desired[n].conf.sendCommunity)
    ensures ToSend(groups[n := desired[n]], desired, env) == ToSend(groups, desired, env) - {n}
  {
    NoChurn.StoredGroupIsQuietIff(desired[n], env);
    hide PeerGroupConfigEqual, GroupView;
  }

  lemma SendingShrinksGroupWork(n: string, groups: map<string, PeerGroup>, desired: map<string, PeerGroup>, env: Defaults)
    requires n in desired && Encodable(desired[n].conf.sendCommunity)
    requires n !in groups || GroupDrifted(n, groups, desired, env)
    ensures |GroupWork(groups[n := desired[n]], desired, env)| + 1 == |GroupWork(groups, desired, env)|
  {
    assert n in ToSend(groups, desired, env);
    hide GroupWork, ToSend, GroupDrifted;
    GroupWorkSplits(groups, desired, env);
    GroupWorkSplits(groups[n := desired[n]], desired, env);
    SentIsNotToSend(n, groups, desired, env);
    assert groups[n := desired[n]].Keys - desired.Keys == groups.Keys - desired.Keys;
  }

  /** The unwanted groups that a pass cannot delete. */
  function HeldBack(groups: map<string, PeerGroup>, peers: map<string, Peer>, desired: map<string, PeerGroup>): set<string> {
    set n | n in groups && n !in desired && HasMembers(n, peers)
  }

  lemma SettledGroupIsQuiet(n: string, groups: map<string, PeerGroup>, peers: map<string, Peer>, desired: map<string, PeerGroup>, env: Defaults)
    requires SoundGroups(desired) && n in desired
    ensures n in SettledGroups(groups, peers, desired, env)
    ensures !GroupDrifted(n, SettledGroups(groups, peers, desired, env), desired, env)
  {
    NoChurn.StoredGroupIsQuietIff(desired[n], env);
    hide PeerGroupConfigEqual, GroupView, HasMembers;
  }

  /** After a pass the work left is exactly the unwanted groups that had members. */
  lemma SettledGroupsWork(groups: map<string, PeerGroup>, peers: map<string, Peer>, desired: map<string, PeerGroup>, env: Defaults)
    requires SoundGroups(desired)
    ensures GroupWork(SettledGroups(groups, peers, desired, env), desired, env) == HeldBack(groups, peers, desired)
  {
    hide GroupDrifted, HasMembers, SoundGroups;
    var g := SettledGroups(groups, peers, desired, env);
    forall n | n in desired ensures n in g && !GroupDrifted(n, g, desired, env) {
      SettledGroupIsQuiet(n, groups, peers, desired, env);
    }
  }

  /** Tried deletions and effective sends together are the work there was. */
  lemma GroupCallCount(mid: map<string, PeerGroup>, before: map<string, PeerGroup>, desired: map<string, PeerGroup>,
                       peers: map<string, Peer>, env: Defaults)
    requires SoundGroups(desired)
    requires forall n :: n in mid <==> n in before && (n in desired || HasMembers(n, peers))
    requires forall n :: n in mid ==> mid[n] == before[n]
    ensures |before.Keys - desired.Keys| + |GroupWork(mid, desired, env)|
            == |GroupWork(before, desired, env)| + |GroupWork(SettledGroups(before, peers, desired, env), desired, env)|
  {
    hide HasMembers, SettledGroups, SoundGroups, GroupWork, ToSend, HeldBack;
    GroupWorkSplits(before, desired, env);
    GroupWorkSplits(mid, desired, env);
    SettledGroupsWork(before, peers, desired, env);
    SameToSend(mid, before, desired, env);
    UnwantedLeft(mid, before, desired, peers);
  }

  lemma UnwantedLeft(mid: map<string, PeerGroup>, before: map<string, PeerGroup>, desired: map<string, PeerGroup>, peers: map<string, Peer>)
    requires forall n :: n in mid <==> n in before && (n in desired || HasMembers(n, peers))
    ensures mid.Keys - desired.Keys == HeldBack(before, peers, desired)
  {
    hide HasMembers;
  }
}
