/** What a pass without failures achieves, in the resource's own terms. */
module Outcome {
  import opened Wrappers
  import opened Messages
  import opened Converters
  import opened Echo
  import opened Comparators
  import opened Daemon
  import opened Desired
  import opened Effect
  import opened Plans

  // ---- neighbors ----

  /** For each key, the last entry that applies here is what the daemon shows. */
  ghost predicate AllShown(ns: seq<Neighbor>, groups: map<string, PeerGroup>, world: World,
                           peers: map<string, Peer>, held: map<string, PeerGroup>, env: Defaults) {
    forall i :: 0 <= i < |ns| && LastOfKey(ns, i, groups, world) ==> EntryShown(ns[i], world, peers, held, env)
  }

  ghost predicate EntryShown(n: Neighbor, world: World, peers: map<string, Peer>, held: map<string, PeerGroup>, env: Defaults) {
    && KeyFromConfig(n.config) in peers
    && exists password :: PasswordIs(password, n.config.authPassword, n.config.authPasswordSecretRef, world) &&
                          NeighborShown(n, password, View(peers[KeyFromConfig(n.config)], held, env))
  }

  /** Held exactly when some entry that applies here has the key, or a configured range contains the address under
      which the daemon reports what was held before. */
  ghost predicate HeldAreNamedOrKept(ns: seq<Neighbor>, groups: map<string, PeerGroup>, world: World, peers: map<string, Peer>,
                                     before: map<string, Peer>, held: map<string, PeerGroup>, goal: Goal, env: Defaults) {
    forall k :: k in peers <==>
      || (exists i :: 0 <= i < |ns| && LastOfKey(ns, i, groups, world) && KeyFromConfig(ns[i].config) == k)
      || (k in before && exists i :: 0 <= i < |goal.prefixes| && goal.contains(goal.prefixes[i], View(before[k], held, env).conf.neighborAddress))
  }

  /** What a pass without failures achieves, in the resource's own terms. */
  lemma SettledShows(ns: seq<Neighbor>, groups: map<string, PeerGroup>, world: World, peers: map<string, Peer>,
                     held: map<string, PeerGroup>, goal: Goal, env: Defaults)
    requires DesiredNeighbors(ns, groups, world) == Ok(goal.desired)
    ensures AllShown(ns, groups, world, Settled(peers, held, goal, env), held, env)
    ensures HeldAreNamedOrKept(ns, groups, world, Settled(peers, held, goal, env), peers, held, goal, env)
  {
    hide NeedsUpdate, View, Kept, AdmitNeighbor, LastOfKey, EntryShown, Settled, Sound, SentFor, KeyFromConfig;
    DesiredNeighborsAre(ns, groups, world);
    DesiredNeighborsAreSound(ns, groups, world);
    SettledIsQuiet(peers, held, goal, env);
    var p := Settled(peers, held, goal, env);
    forall i | 0 <= i < |ns| && LastOfKey(ns, i, groups, world) ensures EntryShown(ns[i], world, p, held, env) {
      SettledEntryShown(ns[i], peers, held, goal, world, env);
    }
    forall k | k in peers ensures Kept(peers[k], goal, env) <==>
      exists i :: 0 <= i < |goal.prefixes| && goal.contains(goal.prefixes[i], View(peers[k], held, env).conf.neighborAddress) {
      KeptAsReported(peers[k], held, goal, env);
    }
    forall k ensures k in goal.desired <==> exists i :: 0 <= i < |ns| && LastOfKey(ns, i, groups, world) && KeyFromConfig(ns[i].config) == k {
    }
  }

  lemma KeptAsReported(s: Peer, held: map<string, PeerGroup>, goal: Goal, env: Defaults)
    ensures Kept(s, goal, env) <==>
            exists i :: 0 <= i < |goal.prefixes| && goal.contains(goal.prefixes[i], View(s, held, env).conf.neighborAddress)
  {
  }

  lemma SettledEntryShown(n: Neighbor, peers: map<string, Peer>, held: map<string, PeerGroup>, goal: Goal, world: World, env: Defaults)
    requires Sound(goal.desired) && KeyFromConfig(n.config) in goal.desired
    requires SentFor(n, goal.desired[KeyFromConfig(n.config)], world)
    ensures EntryShown(n, world, Settled(peers, held, goal, env), held, env)
  {
    hide NeedsUpdate, View, Kept, Sound, KeyFromConfig, NeighborShown, ToPeer;
    var k := KeyFromConfig(n.config);
    var p := Settled(peers, held, goal, env);
    assert k in p;
    SettledPeerIsQuiet(k, peers, held, goal, env);
    var password :| PasswordIs(password, n.config.authPassword, n.config.authPasswordSecretRef, world) && goal.desired[k] == ToPeer(n, password);
    hide Settled;
    QuietIffShown(n, password, p[k], held, env);
  }

  // ---- peer groups ----

  /** Each desired group is there, and everything it states is what the daemon reports. */
  ghost predicate GroupsAgree(groups: map<string, PeerGroup>, desired: map<string, PeerGroup>, env: Defaults) {
    forall n :: n in desired ==> n in groups && GroupStatedAgree(desired[n], GroupView(desired[n], env), GroupView(groups[n], env))
  }

  ghost predicate AllGroupsShown(gs: seq<PeerGroupSpec>, world: World, groups: map<string, PeerGroup>, env: Defaults) {
    forall i :: 0 <= i < |gs| && LastOfName(gs, i, world) ==>
      gs[i].config.peerGroupName in groups && GroupShown(gs[i], GroupView(groups[gs[i].config.peerGroupName], env))
  }

  /** What a group pass without failures achieves. */
  lemma SettledGroupsShow(gs: seq<PeerGroupSpec>, world: World, groups: map<string, PeerGroup>, peers: map<string, Peer>,
                          desired: map<string, PeerGroup>, env: Defaults)
    requires DesiredGroups(gs, world) == Ok(desired)
    ensures GroupsAgree(SettledGroups(groups, peers, desired, env), desired, env)
    ensures AllGroupsShown(gs, world, SettledGroups(groups, peers, desired, env), env)
  {
    hide PeerGroupConfigEqual, GroupView, HasMembers, LastOfName, GroupShown, GroupStatedAgree, GroupSentFor, AdmitGroup, GroupExpressible,
         SettledGroups, ToPeerGroup, PasswordIs;
    DesiredGroupsAre(gs, world);
    DesiredGroupsAreSound(gs, world);
    var g := SettledGroups(groups, peers, desired, env);
    forall n | n in desired ensures n in g && GroupStatedAgree(desired[n], GroupView(desired[n], env), GroupView(g[n], env)) {
      SettledGroupIsQuiet(n, groups, peers, desired, env);
      GroupDetectionIsExact(desired[n], g[n], env);
    }
    forall i | 0 <= i < |gs| && LastOfName(gs, i, world)
      ensures gs[i].config.peerGroupName in g && GroupShown(gs[i], GroupView(g[gs[i].config.peerGroupName], env)) {
      var n := gs[i].config.peerGroupName;
      SettledGroupIsQuiet(n, groups, peers, desired, env);
      GroupSentShown(gs[i], desired[n], g[n], world, env);
    }
  }

  lemma GroupSentShown(spec: PeerGroupSpec, d: PeerGroup, s: PeerGroup, world: World, env: Defaults)
    requires GroupSentFor(spec, d, world) && PeerGroupConfigEqual(d, GroupView(s, env))
    ensures GroupShown(spec, GroupView(s, env))
  {
    hide PeerGroupConfigEqual, GroupView, GroupShown, ToPeerGroup, PasswordIs;
    var password :| PasswordIs(Some(password), Some(spec.config.authPassword), spec.config.authPasswordSecretRef, world)
                    && d == ToPeerGroup(spec, password);
    GroupQuietIffShown(spec, password, s, env);
  }
}
