/** Repeated passes over peer groups and neighbors: what they leave of an arbitrary starting state. */
module Convergence {
  import opened Wrappers
  import opened Messages
  import opened Converters
  import opened Echo
  import opened Comparators
  import opened Daemon
  import opened Desired
  import opened Plans
  import opened Reconciler

  /** What the daemon holds of peers and groups. */
  datatype State = State(peers: map<string, Peer>, groups: map<string, PeerGroup>)

  /** What a configuration asks for on this node. */
  datatype Target = Target(groups: map<string, PeerGroup>, goal: Goal)

  /** A target whose neighbors name no group, or a desired one. */
  ghost predicate Coherent(t: Target) {
    && SoundGroups(t.groups) && Sound(t.goal.desired)
    && forall k :: k in t.goal.desired ==> t.goal.desired[k].conf.peerGroup == "" || t.goal.desired[k].conf.peerGroup in t.groups
  }

  /** One pass without failures: groups first, then neighbors under the new groups. */
  function Pass(s: State, t: Target, env: Defaults): State {
    var groups := SettledGroups(s.groups, s.peers, t.groups, env);
    State(Settled(s.peers, groups, t.goal, env), groups)
  }

  /** The Add, Update and Delete calls of that pass, refused ones included. */
  function Calls(s: State, t: Target, env: Defaults): nat {
    |GroupWork(s.groups, t.groups, env)| +
    |Work(s.peers, SettledGroups(s.groups, s.peers, t.groups, env), t.goal, env)|
  }

  /** A peer that no pass removes although nothing asks for it, in an unwanted group. */
  predicate Pins(k: string, s: State, t: Target, env: Defaults) {
    && k in s.peers && k !in t.goal.desired && Kept(s.peers[k], t.goal, env)
    && s.peers[k].conf.peerGroup != "" && s.peers[k].conf.peerGroup in s.groups && s.peers[k].conf.peerGroup !in t.groups
  }

  /** The unwanted groups that such peers hold in place. */
  function Stuck(s: State, t: Target, env: Defaults): set<string> {
    set k | k in s.peers && Pins(k, s, t, env) :: s.peers[k].conf.peerGroup
  }

  lemma {:induction false} DesiredNamesKnownGroups(ns: seq<Neighbor>, groups: map<string, PeerGroup>, world: World)
    ensures DesiredNeighbors(ns, groups, world).Ok? ==>
      forall k :: k in DesiredNeighbors(ns, groups, world).value ==>
        var g := DesiredNeighbors(ns, groups, world).value[k].conf.peerGroup; g == "" || g in groups
  {
    if ns != [] {
      DesiredNamesKnownGroups(ns[..|ns| - 1], groups, world);
    }
  }

  // ---- after the first pass ----

  /** A peer left by a pass is desired, and then in no group or a desired one, or it is a kept one, untouched. */
  lemma PassedPeer(k: string, s: State, t: Target, env: Defaults)
    requires Coherent(t) && k in Pass(s, t, env).peers
    ensures var p := Pass(s, t, env).peers[k];
      if k in t.goal.desired then p.conf.peerGroup == "" || p.conf.peerGroup in t.groups
      else k in s.peers && p == s.peers[k] && Kept(p, t.goal, env)
  {
    hide Kept;
    var groups := Pass(s, t, env).groups;
    if k in t.goal.desired && k in s.peers && !Drifted(k, s.peers, groups, t.goal, env) {
      QuietPeerSharesGroup(t.goal.desired[k], s.peers[k], groups, env);
    }
  }

  lemma QuietPeerSharesGroup(d: Peer, s: Peer, groups: map<string, PeerGroup>, env: Defaults)
    requires !NeedsUpdate(d, View(s, groups, env))
    ensures d.conf.peerGroup == s.conf.peerGroup
  {
  }

  lemma KeptPeerStays(k: string, s: State, t: Target, env: Defaults)
    requires k in s.peers && k !in t.goal.desired && Kept(s.peers[k], t.goal, env)
    ensures k in Pass(s, t, env).peers && Pass(s, t, env).peers[k] == s.peers[k]
  {
    hide NeedsUpdate, View, Kept, SettledGroups;
  }

  /** From the first pass on, an unwanted group has members exactly when it is stuck. */
  lemma HeldBackIsStuck(s: State, t: Target, env: Defaults)
    requires Coherent(t)
    ensures var s' := Pass(s, t, env); HeldBack(s'.groups, s'.peers, t.groups) == Stuck(s, t, env)
  {
    hide Pass, Kept, Settled, SettledGroups, Coherent;
    var s' := Pass(s, t, env);
    forall n ensures n in HeldBack(s'.groups, s'.peers, t.groups) <==> n in Stuck(s, t, env) {
      if n in HeldBack(s'.groups, s'.peers, t.groups) {
        var k :| k in s'.peers && s'.peers[k].conf.peerGroup == n;
        PassedPeer(k, s, t, env);
        UnwantedGroupWasThere(n, s, t, env);
        assert Pins(k, s, t, env);
      }
      if n in Stuck(s, t, env) {
        var k :| k in s.peers && Pins(k, s, t, env) && s.peers[k].conf.peerGroup == n;
        KeptPeerStays(k, s, t, env);
        MemberHoldsGroup(n, k, s, t, env);
        assert HasMembers(n, s'.peers);
      }
    }
  }

  lemma UnwantedGroupWasThere(n: string, s: State, t: Target, env: Defaults)
    requires n in Pass(s, t, env).groups && n !in t.groups
    ensures n in s.groups
  {
    hide Settled, GroupDrifted;
  }

  lemma MemberHoldsGroup(n: string, k: string, s: State, t: Target, env: Defaults)
    requires n != "" && n in s.groups && k in s.peers && s.peers[k].conf.peerGroup == n
    ensures n in Pass(s, t, env).groups
  {
    hide Settled, GroupDrifted;
    assert HasMembers(n, s.peers);
  }

  /** The same peers pin the same groups after a pass. */
  lemma StuckStays(s: State, t: Target, env: Defaults)
    requires Coherent(t)
    ensures Stuck(Pass(s, t, env), t, env) == Stuck(s, t, env)
  {
    hide Pass, Kept, Coherent;
    var s' := Pass(s, t, env);
    forall n ensures n in Stuck(s', t, env) <==> n in Stuck(s, t, env) {
      if n in Stuck(s', t, env) {
        var k :| k in s'.peers && Pins(k, s', t, env) && s'.peers[k].conf.peerGroup == n;
        PassedPeer(k, s, t, env);
        UnwantedGroupWasThere(n, s, t, env);
        assert Pins(k, s, t, env);
      }
      if n in Stuck(s, t, env) {
        var k :| k in s.peers && Pins(k, s, t, env) && s.peers[k].conf.peerGroup == n;
        KeptPeerStays(k, s, t, env);
        MemberHoldsGroup(n, k, s, t, env);
        assert Pins(k, s', t, env);
      }
    }
  }

  // ---- the second pass ----

  lemma SettledGroupStays(n: string, s: State, t: Target, env: Defaults)
    requires SoundGroups(t.groups) && n in Pass(s, t, env).groups
    ensures var s' := Pass(s, t, env);
      && (n in Pass(s', t, env).groups <==> n in t.groups || HasMembers(n, s'.peers))
      && (n in Pass(s', t, env).groups ==> Pass(s', t, env).groups[n] == s'.groups[n])
  {
    hide Settled, HasMembers;
    if n in t.groups {
      SettledGroupIsQuiet(n, s.groups, s.peers, t.groups, env);
    }
    hide GroupDrifted;
  }

  lemma NoNewGroups(n: string, s: State, t: Target, env: Defaults)
    requires SoundGroups(t.groups) && n in Pass(Pass(s, t, env), t, env).groups
    ensures n in Pass(s, t, env).groups
  {
    hide Settled, HasMembers, GroupDrifted;
  }

  /** Removing memberless groups changes no peer's group. */
  lemma GroupOfMemberStays(k: string, s: State, t: Target, env: Defaults)
    requires SoundGroups(t.groups) && k in Pass(s, t, env).peers
    ensures var s' := Pass(s, t, env);
      var n := s'.peers[k].conf.peerGroup; GroupOf(Pass(s', t, env).groups, n) == GroupOf(s'.groups, n)
  {
    hide Pass, SoundGroups;
    var s' := Pass(s, t, env);
    var n := s'.peers[k].conf.peerGroup;
    if n != "" {
      assert HasMembers(n, s'.peers);
      if n in s'.groups {
        SettledGroupStays(n, s, t, env);
      } else if n in Pass(s', t, env).groups {
        NoNewGroups(n, s, t, env);
      }
    }
  }

  lemma SameDrift(k: string, s: State, t: Target, env: Defaults)
    requires Coherent(t) && k in Pass(s, t, env).peers
    ensures var s' := Pass(s, t, env);
      !Drifted(k, s'.peers, Pass(s', t, env).groups, t.goal, env) && !Unwanted(k, s'.peers, t.goal, env)
  {
    hide Kept, NeedsUpdate, SettledGroups, Resolve;
    var s' := Pass(s, t, env);
    GroupOfMemberStays(k, s, t, env);
    SettledPeerIsQuiet(k, s.peers, s'.groups, t.goal, env);
    hide Settled;
  }

  /** The first pass already leaves the neighbors as they will stay. */
  lemma NeighborsSettleInOnePass(s: State, t: Target, env: Defaults)
    requires Coherent(t)
    ensures var s' := Pass(s, t, env);
      && Work(s'.peers, Pass(s', t, env).groups, t.goal, env) == {}
      && Pass(s', t, env).peers == s'.peers
  {
    var s' := Pass(s, t, env);
    var groups := Pass(s', t, env).groups;
    forall k | k in s'.peers ensures !Drifted(k, s'.peers, groups, t.goal, env) && !Unwanted(k, s'.peers, t.goal, env) {
      SameDrift(k, s, t, env);
    }
    DesiredArePresent(s, t, env);
    NothingToDo(s', groups, t, env);
    QuietIffSettled(s'.peers, groups, t.goal, env);
    assert Pass(s', t, env).peers == Settled(s'.peers, groups, t.goal, env);
  }

  lemma DesiredArePresent(s: State, t: Target, env: Defaults)
    ensures forall k :: k in t.goal.desired ==> k in Pass(s, t, env).peers
  {
    hide Drifted, SettledGroups;
  }

  lemma NothingToDo(s: State, groups: map<string, PeerGroup>, t: Target, env: Defaults)
    requires forall k :: k in t.goal.desired ==> k in s.peers
    requires forall k :: k in s.peers ==> !Drifted(k, s.peers, groups, t.goal, env) && !Unwanted(k, s.peers, t.goal, env)
    ensures Work(s.peers, groups, t.goal, env) == {}
  {
    hide Drifted, Unwanted;
  }

  /** After two passes, from any state, only refused deletions of stuck groups go on, and nothing changes. */
  lemma TwoPassesConverge(s: State, t: Target, env: Defaults)
    requires Coherent(t)
    ensures var s2 := Pass(Pass(s, t, env), t, env);
      Calls(s2, t, env) == |Stuck(s, t, env)| && Pass(s2, t, env) == s2
  {
    hide Pass, Stuck, Settled, SettledGroups, Work, GroupWork, HeldBack;
    var s1 := Pass(s, t, env);
    var s2 := Pass(s1, t, env);
    CallsSplit(s2, t, env);
    GroupWorkAfter(s1, t, env);
    HeldBackIsStuck(s, t, env);
    HeldBackIsStuck(s1, t, env);
    StuckStays(s, t, env);
    NeighborsSettleInOnePass(s, t, env);
    NeighborsSettleInOnePass(s1, t, env);
    GroupsSettleInTwoPasses(s, t, env);
  }

  lemma CallsSplit(s: State, t: Target, env: Defaults)
    ensures Calls(s, t, env) == |GroupWork(s.groups, t.groups, env)| + |Work(s.peers, Pass(s, t, env).groups, t.goal, env)|
  {
    hide Settled, SettledGroups, Work, GroupWork;
  }

  lemma GroupWorkAfter(s: State, t: Target, env: Defaults)
    requires Coherent(t)
    ensures GroupWork(Pass(s, t, env).groups, t.groups, env) == HeldBack(s.groups, s.peers, t.groups)
  {
    hide GroupWork, SettledGroups, Settled, HeldBack;
    SettledGroupsWork(s.groups, s.peers, t.groups, env);
  }

  lemma GroupsSettleInTwoPasses(s: State, t: Target, env: Defaults)
    requires Coherent(t)
    ensures var s2 := Pass(Pass(s, t, env), t, env); Pass(s2, t, env).groups == s2.groups
  {
    hide Pass, Settled, SettledGroups, HasMembers, HeldBack, Stuck;
    var s1 := Pass(s, t, env);
    var s2 := Pass(s1, t, env);
    NeighborsSettleInOnePass(s, t, env);
    forall n | n in s2.groups ensures n in Pass(s2, t, env).groups && Pass(s2, t, env).groups[n] == s2.groups[n] {
      NoNewGroups(n, s, t, env);
      SettledGroupStays(n, s, t, env);
      SettledGroupStays(n, s1, t, env);
    }
    forall n | n in Pass(s2, t, env).groups ensures n in s2.groups {
      NoNewGroups(n, s1, t, env);
    }
  }

  /** At most two passes reach a state in which a pass issues no call, exactly when no kept peer that nothing
      asks for sits in an unwanted group. */
  lemma QuietAfterTwoPassesIff(s: State, t: Target, env: Defaults)
    requires Coherent(t)
    ensures Calls(Pass(Pass(s, t, env), t, env), t, env) == 0 <==> forall k :: !Pins(k, s, t, env)
  {
    TwoPassesConverge(s, t, env);
    hide Pins, Pass, Calls;
    if Stuck(s, t, env) == {} {
      forall k ensures !Pins(k, s, t, env) {
        if Pins(k, s, t, env) {
          PinnedIsStuck(k, s, t, env);
        }
      }
    } else {
      var n :| n in Stuck(s, t, env);
    }
  }

  lemma PinnedIsStuck(k: string, s: State, t: Target, env: Defaults)
    requires Pins(k, s, t, env)
    ensures Stuck(s, t, env) != {}
  {
    assert s.peers[k].conf.peerGroup in Stuck(s, t, env);
  }

  // ---- the passes as the controller runs them ----

  ghost function StateOf(daemon: Gobgpd): State
    reads daemon
  {
    State(daemon.peers, daemon.groups)
  }

  /** The fragment of Reconcile that runs the two functions, with the groups the first returns. */
  method ReconcilePeers(r: BGPConfigurationReconciler, neighbors: seq<Neighbor>, specs: seq<PeerGroupSpec>,
                        prefixes: seq<string>, ghost t: Target) returns (ok: bool)
    requires r.daemon.Valid() && r.daemon.healthy
    requires DesiredGroups(specs, r.world) == Ok(t.groups)
    requires DesiredNeighbors(neighbors, t.groups, r.world) == Ok(t.goal.desired)
    requires t.goal == r.NeighborGoal(t.goal.desired, prefixes)
    modifies r, r.daemon`peers, r.daemon`groups, r.daemon`writes, r.daemon`applied
    ensures r.daemon.Valid() && ok
    ensures StateOf(r.daemon) == Pass(old(StateOf(r.daemon)), t, r.daemon.env)
    ensures r.daemon.writes == old(r.daemon.writes) + Calls(old(StateOf(r.daemon)), t, r.daemon.env)
  {
    hide DesiredGroups, DesiredNeighbors, GroupWork, Work, SettledGroups, Settled, KeyedPeers, KeyedGroups, HasMembers, Unwanted;
    var desired;
    ok, desired := r.ReconcilePeerGroups(specs);
    ok := r.ReconcileNeighbors(neighbors, prefixes, desired);
  }

  /** The state after n passes, and the calls they issued. */
  ghost function Passes(s: State, t: Target, env: Defaults, n: nat): State {
    if n == 0 then s else Pass(Passes(s, t, env, n - 1), t, env)
  }

  ghost function AllCalls(s: State, t: Target, env: Defaults, n: nat): nat {
    if n == 0 then 0 else AllCalls(s, t, env, n - 1) + Calls(Passes(s, t, env, n - 1), t, env)
  }

  /** Any number of passes from any state: from the second on the state stands still, and each further pass
      costs one refused call for every stuck group. */
  lemma {:induction false} RunsSettle(s: State, t: Target, env: Defaults, n: nat)
    requires Coherent(t) && n >= 2
    ensures Passes(s, t, env, n) == Passes(s, t, env, 2)
    ensures AllCalls(s, t, env, n) == AllCalls(s, t, env, 2) + (n - 2) * |Stuck(s, t, env)|
  {
    hide Pass, Calls, Stuck;
    if n > 2 {
      RunsSettle(s, t, env, n - 1);
      TwoPassesConverge(s, t, env);
      TwoPasses(s, t, env);
      assert (n - 2) * |Stuck(s, t, env)| == (n - 3) * |Stuck(s, t, env)| + |Stuck(s, t, env)|;
    }
  }

  lemma TwoPasses(s: State, t: Target, env: Defaults)
    ensures Passes(s, t, env, 2) == Pass(Pass(s, t, env), t, env)
  {
    hide Pass;
    assert Passes(s, t, env, 1) == Pass(Passes(s, t, env, 0), t, env);
  }

  /** The periodic reconcile of an unedited configuration, n times over. */
  method ReconcileRepeatedly(r: BGPConfigurationReconciler, neighbors: seq<Neighbor>, specs: seq<PeerGroupSpec>,
                             prefixes: seq<string>, n: nat, ghost t: Target)
    requires r.daemon.Valid() && r.daemon.healthy && n >= 2
    requires DesiredGroups(specs, r.world) == Ok(t.groups)
    requires DesiredNeighbors(neighbors, t.groups, r.world) == Ok(t.goal.desired)
    requires t.goal == r.NeighborGoal(t.goal.desired, prefixes)
    modifies r, r.daemon`peers, r.daemon`groups, r.daemon`writes, r.daemon`applied
    ensures r.daemon.Valid()
    ensures StateOf(r.daemon) == Passes(old(StateOf(r.daemon)), t, r.daemon.env, 2)
    ensures r.daemon.writes - old(r.daemon.writes)
            == AllCalls(old(StateOf(r.daemon)), t, r.daemon.env, 2) + (n - 2) * |Stuck(old(StateOf(r.daemon)), t, r.daemon.env)|
  {
    hide DesiredGroups, DesiredNeighbors, Pass, Calls, Stuck, KeyedPeers, KeyedGroups, Coherent;
    ghost var s := StateOf(r.daemon);
    TargetIsCoherent(neighbors, specs, r.world, t);
    for i := 0 to n
      invariant r.daemon.Valid() && r.daemon.healthy
      invariant StateOf(r.daemon) == Passes(s, t, r.daemon.env, i)
      invariant r.daemon.writes == old(r.daemon.writes) + AllCalls(s, t, r.daemon.env, i)
    {
      var _ := ReconcilePeers(r, neighbors, specs, prefixes, t);
    }
    RunsSettle(s, t, r.daemon.env, n);
  }

  lemma TargetIsCoherent(neighbors: seq<Neighbor>, specs: seq<PeerGroupSpec>, world: World, t: Target)
    requires DesiredGroups(specs, world) == Ok(t.groups)
    requires DesiredNeighbors(neighbors, t.groups, world) == Ok(t.goal.desired)
    ensures Coherent(t)
  {
    hide DesiredGroups, DesiredNeighbors, Sound, SoundGroups;
    DesiredGroupsAreSound(specs, world);
    DesiredNeighborsAreSound(neighbors, t.groups, world);
    DesiredNamesKnownGroups(neighbors, t.groups, world);
  }
}
