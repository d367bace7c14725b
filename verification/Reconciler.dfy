/** The two reconcile functions that carry inheritance: peer groups, then neighbors. */
module Reconciler {
  import opened Wrappers
  import opened Messages
  import opened Converters
  import opened Echo
  import opened Comparators
  import opened Daemon
  import opened Desired
  import opened Plans
  import opened Outcome
  import opened ChangeDetection

  class BGPConfigurationReconciler {
    const daemon: Gobgpd
    const world: World
    /** Status.NeighborCount, and what the status reporter is told about inheritance. */
    var neighborCount: nat
    var inherited: map<string, seq<Block>>

    constructor (daemon: Gobgpd, world: World)
      ensures this.daemon == daemon && this.world == world
    {
      this.daemon, this.world := daemon, world;
      neighborCount, inherited := 0, map[];
    }

    method IsDynamicallyAcceptedPeer(peer: Peer, prefixes: seq<string>) returns (r: bool)
      ensures r <==> InRange(peer.conf.neighborAddress, prefixes, world.contains)
    {
      r := false;
      for i := 0 to |prefixes|
        invariant !r && forall j :: 0 <= j < i ==> !world.contains(prefixes[j], peer.conf.neighborAddress)
      {
        if world.contains(prefixes[i], peer.conf.neighborAddress) {
          return true;
        }
      }
    }

    /** Step 2 of reconcileNeighbors: the loop over spec.neighbors. */
    method BuildDesiredNeighbors(neighbors: seq<Neighbor>, groups: map<string, PeerGroup>)
      returns (ok: bool, desired: map<string, Peer>, blocks: map<string, seq<Block>>)
      ensures ok <==> DesiredNeighbors(neighbors, groups, world).Ok?
      ensures ok ==> desired == DesiredNeighbors(neighbors, groups, world).value
      ensures ok ==> blocks == InheritedMap(neighbors, groups, world)
    {
      hide InheritedBlocks, ToPeer, ResolveAuthPassword, SelectorOf, PeerKey, KeyFromConfig;
      desired, blocks := map[], map[];
      for i := 0 to |neighbors|
        invariant DesiredNeighbors(neighbors[..i], groups, world) == Ok(desired)
        invariant blocks == InheritedMap(neighbors[..i], groups, world)
      {
        var n := neighbors[i];
        assert neighbors[..i + 1][..i] == neighbors[..i];
        match SelectorOf(n.nodeSelector, world) {
          case LookupFailed =>
            FailureIsFinal(neighbors, i + 1, groups);
            return false, desired, blocks;
          case Differs => continue;
          case Matches =>
        }
        if n.config.peerGroup != "" && n.config.peerGroup !in groups {
          continue;
        }
        var password := ResolveAuthPassword(n.config.authPassword, n.config.authPasswordSecretRef, world);
        if password.Err? {
          FailureIsFinal(neighbors, i + 1, groups);
          return false, desired, blocks;
        }
        var peer := ToPeer(n, password.value);
        var key := KeyFromConfig(n.config);
        ConvertedKey(n, password.value);
        desired := desired[key := peer];
        if InheritedBlocks(peer) != [] {
          blocks := blocks[key := InheritedBlocks(peer)];
        }
      }
      assert neighbors[..|neighbors|] == neighbors;
      ok := true;
    }

    lemma FailureIsFinal(neighbors: seq<Neighbor>, i: nat, groups: map<string, PeerGroup>)
      requires i <= |neighbors| && DesiredNeighbors(neighbors[..i], groups, world).Err?
      ensures DesiredNeighbors(neighbors, groups, world).Err?
      decreases |neighbors| - i
    {
      if i < |neighbors| {
        assert neighbors[..i + 1][..i] == neighbors[..i];
        FailureIsFinal(neighbors, i + 1, groups);
      } else {
        assert neighbors[..i] == neighbors;
      }
    }

    function NeighborGoal(desired: map<string, Peer>, prefixes: seq<string>): Goal {
      Goal(desired, prefixes, world.contains)
    }

    /** Step 1: the stream, as far as it came, keyed. */
    method ListNeighbors() returns (ok: bool, current: map<string, Peer>)
      requires daemon.Valid()
      ensures daemon.healthy ==> ok && current.Keys == daemon.peers.Keys
      ensures forall k :: k in current ==> k in daemon.peers && current[k] == daemon.Report(k)
    {
      hide View;
      current := map[];
      var stream, complete;
      ok, stream, complete := daemon.ListPeer();
      for i := 0 to |stream|
        invariant forall j :: 0 <= j < i ==> PeerKey(stream[j].conf) in current
        invariant forall k :: k in current ==> k in daemon.peers && current[k] == daemon.Report(k)
      {
        current := current[PeerKey(stream[i].conf) := stream[i]];
      }
      forall k | complete && k in daemon.peers ensures k in current {
        assert Lists(stream, k);
      }
    }

    /** DeletePeer, naming the peer the way the daemon reported it. */
    method DeleteReported(peer: Peer) returns (ok: bool)
      requires daemon.Valid() && PeerKey(peer.conf) in daemon.peers
      modifies daemon`peers, daemon`writes, daemon`applied
      ensures daemon.Valid()
      ensures daemon.healthy ==> ok
      ensures ok ==> daemon.applied > old(daemon.applied)
      ensures daemon.peers == if daemon.applied > old(daemon.applied) then old(daemon.peers) - {PeerKey(peer.conf)} else old(daemon.peers)
      ensures daemon.writes == old(daemon.writes) + 1 && old(daemon.applied) <= daemon.applied <= old(daemon.applied) + 1
    {
      if peer.conf.neighborInterface != "" {
        ok := daemon.DeletePeer(ByInterface(peer.conf.neighborInterface));
      } else {
        ok := daemon.DeletePeer(ByAddress(peer.conf.neighborAddress));
      }
    }

    lemma UnwantedAsReported(key: string, before: map<string, Peer>, peers: map<string, Peer>, groups: map<string, PeerGroup>,
                             goal: Goal, env: Defaults)
      requires key in before && key !in goal.desired && KeyedPeers(before)
      ensures PeerKey(View(before[key], groups, env).conf) == key
      ensures Unwanted(key, before, goal, env)
              <==> !InRange(View(before[key], groups, env).conf.neighborAddress, goal.prefixes, goal.contains)
      ensures key in peers && peers[key] == before[key] ==> (Unwanted(key, peers, goal, env) <==> Unwanted(key, before, goal, env))
    {
      ViewKeepsKey(before[key], groups, env);
    }

    /** Of the keys done, some unwanted ones are gone; nothing else happened. */
    ghost predicate OnlyUnwantedGone(peers: map<string, Peer>, before: map<string, Peer>, done: set<string>, goal: Goal, env: Defaults) {
      && (forall k :: k in peers ==> k in before && peers[k] == before[k])
      && (forall k :: k in before && k !in peers ==> k in done && Unwanted(k, before, goal, env))
    }

    ghost predicate NoUnwantedAmong(done: set<string>, peers: map<string, Peer>, before: map<string, Peer>, goal: Goal, env: Defaults) {
      forall k :: k in done && k in peers ==> !Unwanted(k, before, goal, env)
    }

    /** Step 3. The work shrinks by one key with every call that takes effect, whatever fails. */
    method DeleteUnwantedNeighbors(current: map<string, Peer>, desired: map<string, Peer>, prefixes: seq<string>)
      requires daemon.Valid()
      requires forall k :: k in current ==> k in daemon.peers && current[k] == daemon.Report(k)
      modifies daemon`peers, daemon`writes, daemon`applied
      ensures daemon.Valid()
      ensures OnlyUnwantedGone(daemon.peers, old(daemon.peers), current.Keys, NeighborGoal(desired, prefixes), daemon.env)
      ensures daemon.healthy ==>
        NoUnwantedAmong(current.Keys, daemon.peers, old(daemon.peers), NeighborGoal(desired, prefixes), daemon.env)
      ensures |Work(daemon.peers, daemon.groups, NeighborGoal(desired, prefixes), daemon.env)| + daemon.applied
              == |Work(old(daemon.peers), daemon.groups, NeighborGoal(desired, prefixes), daemon.env)| + old(daemon.applied)
      ensures daemon.healthy ==> daemon.writes - old(daemon.writes) == daemon.applied - old(daemon.applied)
    {
      hide View, NeedsUpdate, Work, Unwanted, Kept, InRange, ReportedAddress, KeyedPeers, KeyedGroups, PeerKey;
      ghost var goal, before := NeighborGoal(desired, prefixes), daemon.peers;
      var todo := current.Keys;
      while todo != {}
        invariant todo <= current.Keys
        invariant daemon.Valid()
        invariant OnlyUnwantedGone(daemon.peers, before, current.Keys - todo, goal, daemon.env)
        invariant daemon.healthy ==> NoUnwantedAmong(current.Keys - todo, daemon.peers, before, goal, daemon.env)
        invariant |Work(daemon.peers, daemon.groups, goal, daemon.env)| + daemon.applied
                  == |Work(before, daemon.groups, goal, daemon.env)| + old(daemon.applied)
        invariant daemon.healthy ==> daemon.writes - old(daemon.writes) == daemon.applied - old(daemon.applied)
      {
        var key :| key in todo;
        todo := todo - {key};
        var peer := current[key];
        if key in desired {
          WantedIsNotUnwanted(key, before, goal, daemon.env);
          continue;
        }
        var dynamic := IsDynamicallyAcceptedPeer(peer, prefixes);
        UnwantedAsReported(key, before, daemon.peers, daemon.groups, goal, daemon.env);
        if dynamic {
          continue;
        }
        DeletingShrinksWork(key, daemon.peers, daemon.groups, goal, daemon.env);
        var _ := DeleteReported(peer);
      }
    }

    lemma WantedIsNotUnwanted(key: string, before: map<string, Peer>, goal: Goal, env: Defaults)
      requires key in goal.desired
      ensures !Unwanted(key, before, goal, env)
    {
    }

    /** Every desired key either still waits to be sent, untouched since mid, or is present. */
    ghost predicate OnlyDesiredSent(peers: map<string, Peer>, mid: map<string, Peer>, todo: set<string>, desired: map<string, Peer>) {
      && (forall k :: k in mid ==> k in peers)
      && (forall k :: k in peers && (k !in desired || k in todo) ==> k in mid && peers[k] == mid[k])
      && (forall k :: k in peers ==> (k in mid && peers[k] == mid[k]) || (k in desired && peers[k] == desired[k]))
    }

    /** Among the keys done, each holds what it held unless that drifted from before, else the desired message. */
    ghost predicate SentAmong(done: set<string>, peers: map<string, Peer>, before: map<string, Peer>,
                              groups: map<string, PeerGroup>, goal: Goal, env: Defaults)
      requires done <= goal.desired.Keys
    {
      forall k :: k in done ==>
        k in peers && peers[k] == if k in before && !Drifted(k, before, groups, goal, env) then before[k] else goal.desired[k]
    }

    lemma SoundEntry(desired: map<string, Peer>, key: string)
      requires Sound(desired) && key in desired
      ensures PeerKey(desired[key].conf) == key && Expressible(desired[key])
    {
    }

    lemma DriftedAsReported(key: string, before: map<string, Peer>, peers: map<string, Peer>, groups: map<string, PeerGroup>,
                            goal: Goal, env: Defaults)
      requires key in goal.desired && key in before
      ensures Drifted(key, before, groups, goal, env) <==> NeedsUpdate(goal.desired[key], View(before[key], groups, env))
      ensures key in peers && peers[key] == before[key] ==>
        (Drifted(key, peers, groups, goal, env) <==> Drifted(key, before, groups, goal, env))
    {
      hide NeedsUpdate, View;
    }

    /** One turn of step 4. */
    method SendNeighbor(key: string, current: map<string, Peer>, desired: map<string, Peer>, ghost goal: Goal)
      requires daemon.Valid() && key in desired && goal.desired == desired
      requires PeerKey(desired[key].conf) == key && Expressible(desired[key])
      requires key in current ==> key in daemon.peers && current[key] == daemon.Report(key)
      requires daemon.healthy ==> (key in current <==> key in daemon.peers)
      modifies daemon`peers, daemon`writes, daemon`applied
      ensures daemon.Valid()
      ensures daemon.peers == old(daemon.peers) || daemon.peers == old(daemon.peers)[key := desired[key]]
      ensures daemon.healthy ==>
        daemon.peers == if key in old(daemon.peers) && !Drifted(key, old(daemon.peers), daemon.groups, goal, daemon.env)
                        then old(daemon.peers) else old(daemon.peers)[key := desired[key]]
      ensures |Work(daemon.peers, daemon.groups, goal, daemon.env)| + daemon.applied
              == |Work(old(daemon.peers), daemon.groups, goal, daemon.env)| + old(daemon.applied)
      ensures daemon.healthy ==> daemon.writes - old(daemon.writes) == daemon.applied - old(daemon.applied)
    {
      hide View, NeedsUpdate, Work, Expressible, Drifted;
      if key !in current {
        if key !in daemon.peers {
          SendingShrinksWork(key, daemon.peers, daemon.groups, goal, daemon.env);
        }
        var _ := daemon.AddPeer(desired[key]);
      } else {
        DriftedAsReported(key, daemon.peers, daemon.peers, daemon.groups, goal, daemon.env);
        if NeedsUpdate(desired[key], current[key]) {
          SendingShrinksWork(key, daemon.peers, daemon.groups, goal, daemon.env);
          var _ := daemon.UpdatePeer(desired[key]);
        }
      }
    }

    /** How far step 4 has come, with the keys of todo still to be sent. */
    ghost predicate Sending(peers: map<string, Peer>, mid: map<string, Peer>, before: map<string, Peer>, todo: set<string>,
                            groups: map<string, PeerGroup>, goal: Goal, env: Defaults, healthy: bool) {
      && OnlyDesiredSent(peers, mid, todo, goal.desired)
      && (healthy ==> SentAmong(goal.desired.Keys - todo, peers, before, groups, goal, env))
    }

    lemma SendingStep(key: string, peers: map<string, Peer>, after: map<string, Peer>, mid: map<string, Peer>,
                      before: map<string, Peer>, todo: set<string>,
                      groups: map<string, PeerGroup>, goal: Goal, env: Defaults, healthy: bool)
      requires Sending(peers, mid, before, todo, groups, goal, env, healthy) && key in todo && todo <= goal.desired.Keys
      requires forall k :: k in mid ==> k in before && mid[k] == before[k]
      requires key in before ==> key in mid
      requires after == peers || after == peers[key := goal.desired[key]]
      requires healthy ==>
        after == if key in peers && !Drifted(key, peers, groups, goal, env) then peers else peers[key := goal.desired[key]]
      ensures Sending(after, mid, before, todo - {key}, groups, goal, env, healthy)
    {
      if key in before {
        DriftedAsReported(key, before, peers, groups, goal, env);
      }
      hide Drifted;
    }

    /** Step 4. */
    method SendNeighbors(current: map<string, Peer>, desired: map<string, Peer>, prefixes: seq<string>, ghost before: map<string, Peer>)
      requires daemon.Valid() && Sound(desired)
      requires forall k :: k in current ==> k in before && current[k] == View(before[k], daemon.groups, daemon.env)
      requires forall k :: k in daemon.peers ==> k in before && daemon.peers[k] == before[k]
      requires forall k :: k in desired && k in before ==> k in daemon.peers
      requires daemon.healthy ==> current.Keys == before.Keys
      modifies daemon`peers, daemon`writes, daemon`applied
      ensures daemon.Valid()
      ensures Sending(daemon.peers, old(daemon.peers), before, {}, daemon.groups, NeighborGoal(desired, prefixes), daemon.env, daemon.healthy)
      ensures |Work(daemon.peers, daemon.groups, NeighborGoal(desired, prefixes), daemon.env)| + daemon.applied
              == |Work(old(daemon.peers), daemon.groups, NeighborGoal(desired, prefixes), daemon.env)| + old(daemon.applied)
      ensures daemon.healthy ==> daemon.writes - old(daemon.writes) == daemon.applied - old(daemon.applied)
    {
      hide View, NeedsUpdate, Work, Expressible, Drifted, Sound, Sending, KeyedPeers, KeyedGroups, PeerKey;
      ghost var goal, mid := NeighborGoal(desired, prefixes), daemon.peers;
      var todo := desired.Keys;
      SendingStart(mid, before, daemon.groups, goal, daemon.env, daemon.healthy);
      while todo != {}
        invariant todo <= desired.Keys
        invariant daemon.Valid()
        invariant Sending(daemon.peers, mid, before, todo, daemon.groups, goal, daemon.env, daemon.healthy)
        invariant |Work(daemon.peers, daemon.groups, goal, daemon.env)| + daemon.applied
                  == |Work(mid, daemon.groups, goal, daemon.env)| + old(daemon.applied)
        invariant daemon.healthy ==> daemon.writes - old(daemon.writes) == daemon.applied - old(daemon.applied)
      {
        var key :| key in todo;
        SoundEntry(desired, key);
        UntouchedWhileWaiting(key, daemon.peers, mid, before, todo, daemon.groups, goal, daemon.env, daemon.healthy);
        ghost var peers := daemon.peers;
        SendNeighbor(key, current, desired, goal);
        SendingStep(key, peers, daemon.peers, mid, before, todo, daemon.groups, goal, daemon.env, daemon.healthy);
        todo := todo - {key};
      }
    }

    lemma SendingStart(mid: map<string, Peer>, before: map<string, Peer>,
                       groups: map<string, PeerGroup>, goal: Goal, env: Defaults, healthy: bool)
      ensures Sending(mid, mid, before, goal.desired.Keys, groups, goal, env, healthy)
    {
    }

    lemma UntouchedWhileWaiting(key: string, peers: map<string, Peer>, mid: map<string, Peer>, before: map<string, Peer>,
                                todo: set<string>, groups: map<string, PeerGroup>, goal: Goal, env: Defaults, healthy: bool)
      requires Sending(peers, mid, before, todo, groups, goal, env, healthy) && key in todo
      ensures key in peers <==> key in mid
      ensures key in peers ==> peers[key] == mid[key]
    {
    }

    /** reconcileNeighbors. Whatever fails, no desired and no kept peer is lost, and every call that takes
        effect brings the daemon exactly one key closer; without failures the daemon ends up settled, after
        exactly the calls that were needed, and shows of each key what the last entry that applies here says. */
    method ReconcileNeighbors(neighbors: seq<Neighbor>, prefixes: seq<string>, groups: map<string, PeerGroup>) returns (ok: bool)
      requires daemon.Valid()
      modifies this, daemon`peers, daemon`writes, daemon`applied
      ensures daemon.Valid()
      ensures DesiredNeighbors(neighbors, groups, world).Err? ==> !ok
      ensures !ok ==>
        && daemon.peers == old(daemon.peers) && daemon.writes == old(daemon.writes)
        && neighborCount == old(neighborCount) && inherited == old(inherited)
      ensures DesiredNeighbors(neighbors, groups, world).Ok? ==>
        var goal := NeighborGoal(DesiredNeighbors(neighbors, groups, world).value, prefixes);
        && (forall k :: k in old(daemon.peers) && !Unwanted(k, old(daemon.peers), goal, daemon.env) ==> k in daemon.peers)
        && OldOrDesired(daemon.peers, old(daemon.peers), goal.desired)
        && |Work(daemon.peers, daemon.groups, goal, daemon.env)| + daemon.applied
           == |Work(old(daemon.peers), daemon.groups, goal, daemon.env)| + old(daemon.applied)
        && (ok ==> neighborCount == |goal.desired| && inherited == InheritedMap(neighbors, groups, world))
        && (daemon.healthy ==>
            && ok && daemon.peers == Settled(old(daemon.peers), daemon.groups, goal, daemon.env)
            && AllShown(neighbors, groups, world, daemon.peers, daemon.groups, daemon.env)
            && HeldAreNamedOrKept(neighbors, groups, world, daemon.peers, old(daemon.peers), daemon.groups, goal, daemon.env)
            && daemon.writes - old(daemon.writes) == |Work(old(daemon.peers), daemon.groups, goal, daemon.env)|)
    {
      hide View, NeedsUpdate, Work, Settled, KeyedPeers, KeyedGroups, PeerKey, Sound, DesiredNeighbors, InheritedMap,
           Unwanted, OnlyUnwantedGone, NoUnwantedAmong, Sending, AllShown, HeldAreNamedOrKept, Kept;
      ghost var before := daemon.peers;
      var current, desired, blocks;
      ok, current := ListNeighbors();
      if !ok {
        return;
      }
      ok, desired, blocks := BuildDesiredNeighbors(neighbors, groups);
      if !ok {
        return;
      }
      neighborCount := |desired|;
      DesiredNeighborsAreSound(neighbors, groups, world);
      DeleteUnwantedNeighbors(current, desired, prefixes);
      ghost var goal, mid := NeighborGoal(desired, prefixes), daemon.peers;
      DeletionFrame(mid, before, current.Keys, goal, daemon.env);
      SendNeighbors(current, desired, prefixes, before);
      inherited := blocks;
      PassOutcome(daemon.peers, mid, before, current.Keys, daemon.groups, goal, daemon.env, daemon.healthy);
      if daemon.healthy {
        SettledIsQuiet(before, daemon.groups, goal, daemon.env);
        SettledShows(neighbors, groups, world, before, daemon.groups, goal, daemon.env);
      }
    }

    lemma DeletionFrame(mid: map<string, Peer>, before: map<string, Peer>, done: set<string>, goal: Goal, env: Defaults)
      requires OnlyUnwantedGone(mid, before, done, goal, env)
      ensures forall k :: k in mid ==> k in before && mid[k] == before[k]
      ensures forall k :: k in goal.desired && k in before ==> k in mid
    {
    }

    lemma PassOutcome(peers: map<string, Peer>, mid: map<string, Peer>, before: map<string, Peer>, listed: set<string>,
                      groups: map<string, PeerGroup>, goal: Goal, env: Defaults, healthy: bool)
      requires OnlyUnwantedGone(mid, before, listed, goal, env)
      requires healthy ==> NoUnwantedAmong(listed, mid, before, goal, env) && listed == before.Keys
      requires Sending(peers, mid, before, {}, groups, goal, env, healthy)
      ensures forall k :: k in before && !Unwanted(k, before, goal, env) ==> k in peers
      ensures OldOrDesired(peers, before, goal.desired)
      ensures healthy ==> peers == Settled(before, groups, goal, env)
    {
      hide Kept, NeedsUpdate, View;
      if healthy {
        var p := Settled(before, groups, goal, env);
        assert forall k :: k in peers <==> k in p;
        assert forall k :: k in peers ==> peers[k] == p[k];
      }
    }

    /** Each entry is what it was, or exactly as desired. */
    ghost predicate OldOrDesired<V>(after: map<string, V>, before: map<string, V>, desired: map<string, V>) {
      forall k :: k in after ==> (k in before && after[k] == before[k]) || (k in desired && after[k] == desired[k])
    }

    // ---- peer groups ----

    /** Step 2 of reconcilePeerGroups. */
    method BuildDesiredGroups(specs: seq<PeerGroupSpec>) returns (ok: bool, desired: map<string, PeerGroup>)
      ensures ok <==> DesiredGroups(specs, world).Ok?
      ensures ok ==> desired == DesiredGroups(specs, world).value
    {
      hide ResolveAuthPassword, SelectorOf;
      desired := map[];
      for i := 0 to |specs|
        invariant DesiredGroups(specs[..i], world) == Ok(desired)
      {
        var g := specs[i];
        assert specs[..i + 1][..i] == specs[..i];
        match SelectorOf(g.nodeSelector, world) {
          case LookupFailed =>
            GroupFailureIsFinal(specs, i + 1);
            return false, desired;
          case Differs => continue;
          case Matches =>
        }
        var password := ResolveAuthPassword(Some(g.config.authPassword), g.config.authPasswordSecretRef, world);
        if password.Err? {
          GroupFailureIsFinal(specs, i + 1);
          return false, desired;
        }
        desired := desired[g.config.peerGroupName := ToPeerGroup(g, password.value.GetOr(""))];
      }
      assert specs[..|specs|] == specs;
      ok := true;
    }

    lemma GroupFailureIsFinal(specs: seq<PeerGroupSpec>, i: nat)
      requires i <= |specs| && DesiredGroups(specs[..i], world).Err?
      ensures DesiredGroups(specs, world).Err?
      decreases |specs| - i
    {
      if i < |specs| {
        assert specs[..i + 1][..i] == specs[..i];
        GroupFailureIsFinal(specs, i + 1);
      } else {
        assert specs[..i] == specs;
      }
    }

    method ListGroups() returns (ok: bool, current: map<string, PeerGroup>)
      requires daemon.Valid()
      ensures daemon.healthy ==> ok && current.Keys == daemon.groups.Keys
      ensures forall n :: n in current ==> n in daemon.groups && current[n] == GroupView(daemon.groups[n], daemon.env)
    {
      hide GroupView;
      current := map[];
      var stream, complete;
      ok, stream, complete := daemon.ListPeerGroup();
      for i := 0 to |stream|
        invariant forall j :: 0 <= j < i ==> stream[j].conf.peerGroupName in current
        invariant forall n :: n in current ==> n in daemon.groups && current[n] == GroupView(daemon.groups[n], daemon.env)
      {
        current := current[stream[i].conf.peerGroupName := stream[i]];
      }
      forall n | complete && n in daemon.groups ensures n in current {
        assert ListsGroup(stream, n);
      }
    }

    /** Of the names done, the unwanted ones are gone unless members, or an unhealthy daemon, keep them. */
    ghost predicate GroupsDeleted(groups: map<string, PeerGroup>, before: map<string, PeerGroup>, done: set<string>,
                                  desired: map<string, PeerGroup>, peers: map<string, Peer>, healthy: bool) {
      && (forall n :: n in groups ==> n in before && groups[n] == before[n])
      && (forall n :: n in before && n !in groups ==> n in done && n !in desired && !HasMembers(n, peers))
      && (healthy ==> forall n :: n in done && n in groups ==> n in desired || HasMembers(n, peers))
    }

    /** Step 3. */
    method DeleteUnwantedGroups(current: map<string, PeerGroup>, desired: map<string, PeerGroup>)
      requires daemon.Valid() && current.Keys <= daemon.groups.Keys
      modifies daemon`groups, daemon`writes, daemon`applied
      ensures daemon.Valid()
      ensures GroupsDeleted(daemon.groups, old(daemon.groups), current.Keys, desired, daemon.peers, daemon.healthy)
      ensures |GroupWork(daemon.groups, desired, daemon.env)| + daemon.applied
              == |GroupWork(old(daemon.groups), desired, daemon.env)| + old(daemon.applied)
      ensures daemon.healthy ==> daemon.writes - old(daemon.writes) == |current.Keys - desired.Keys|
    {
      hide GroupWork, HasMembers, KeyedPeers, KeyedGroups, GroupsDeleted, Done;
      var todo := current.Keys;
      DeletionStart(daemon.groups, desired, daemon.peers, daemon.healthy, current.Keys);
      DoneEnds(current.Keys, desired.Keys);
      while todo != {}
        invariant todo <= current.Keys
        invariant daemon.Valid()
        invariant GroupsDeleted(daemon.groups, old(daemon.groups), current.Keys - todo, desired, daemon.peers, daemon.healthy)
        invariant |GroupWork(daemon.groups, desired, daemon.env)| + daemon.applied
                  == |GroupWork(old(daemon.groups), desired, daemon.env)| + old(daemon.applied)
        invariant daemon.writes - old(daemon.writes) == Done(current.Keys, todo, desired.Keys)
      {
        var name :| name in todo;
        ghost var groups := daemon.groups;
        DoneStep(name, current.Keys, todo, desired.Keys);
        if name !in desired {
          StillHeld(name, groups, old(daemon.groups), current.Keys, todo, desired, daemon.peers, daemon.healthy);
          DeletingShrinksGroupWork(name, daemon.groups, desired, daemon.env);
          var _ := daemon.DeletePeerGroup(name);
        }
        DeletionStep(name, groups, daemon.groups, old(daemon.groups), current.Keys, todo, desired, daemon.peers, daemon.healthy);
        todo := todo - {name};
      }
      assert current.Keys - todo == current.Keys;
    }

    /** How many of the listed names are neither waiting nor desired. */
    ghost function Done(listed: set<string>, todo: set<string>, desired: set<string>): nat {
      |listed - todo - desired|
    }

    lemma DoneStep(name: string, listed: set<string>, todo: set<string>, desired: set<string>)
      requires name in todo && todo <= listed
      ensures Done(listed, todo - {name}, desired) == Done(listed, todo, desired) + if name in desired then 0 else 1
    {
      if name in desired {
        assert listed - (todo - {name}) - desired == listed - todo - desired;
      } else {
        assert listed - (todo - {name}) - desired == listed - todo - desired + {name};
      }
    }

    lemma DoneEnds(listed: set<string>, desired: set<string>)
      ensures Done(listed, listed, desired) == 0 && Done(listed, {}, desired) == |listed - desired|
    {
      assert listed - listed - desired == {} && listed - {} - desired == listed - desired;
    }

    lemma DeletionStart(groups: map<string, PeerGroup>, desired: map<string, PeerGroup>, peers: map<string, Peer>, healthy: bool,
                        listed: set<string>)
      ensures GroupsDeleted(groups, groups, listed - listed, desired, peers, healthy)
    {
    }

    lemma DeletionStep(name: string, groups: map<string, PeerGroup>, after: map<string, PeerGroup>, before: map<string, PeerGroup>,
                       listed: set<string>, todo: set<string>, desired: map<string, PeerGroup>, peers: map<string, Peer>, healthy: bool)
      requires GroupsDeleted(groups, before, listed - todo, desired, peers, healthy)
      requires name in todo && todo <= listed && listed <= before.Keys
      requires after == groups || (after == groups - {name} && name !in desired && !HasMembers(name, peers))
      requires healthy && name !in desired && !HasMembers(name, peers) && name in groups ==> after == groups - {name}
      ensures GroupsDeleted(after, before, listed - (todo - {name}), desired, peers, healthy)
    {
      hide HasMembers;
    }

    lemma StillHeld(name: string, groups: map<string, PeerGroup>, before: map<string, PeerGroup>,
                    listed: set<string>, todo: set<string>, desired: map<string, PeerGroup>, peers: map<string, Peer>, healthy: bool)
      requires GroupsDeleted(groups, before, listed - todo, desired, peers, healthy) && name in todo && name in before
      ensures name in groups
    {
      hide HasMembers;
    }

    /** How far step 4 of reconcilePeerGroups has come, with the names of todo still to be sent. */
    ghost predicate GroupsSending(groups: map<string, PeerGroup>, mid: map<string, PeerGroup>, before: map<string, PeerGroup>,
                                  todo: set<string>, desired: map<string, PeerGroup>, env: Defaults, healthy: bool) {
      && (forall n :: n in mid ==> n in groups)
      && (forall n :: n in groups && (n !in desired || n in todo) ==> n in mid && groups[n] == mid[n])
      && (forall n :: n in groups ==> (n in mid && groups[n] == mid[n]) || (n in desired && groups[n] == desired[n]))
      && (healthy ==> forall n :: n in desired && n !in todo ==>
           n in groups && groups[n] == if n in before && !GroupDrifted(n, before, desired, env) then before[n] else desired[n])
    }

    lemma GroupsSendingStep(name: string, groups: map<string, PeerGroup>, after: map<string, PeerGroup>, mid: map<string, PeerGroup>,
                            before: map<string, PeerGroup>, todo: set<string>,
                            desired: map<string, PeerGroup>, env: Defaults, healthy: bool)
      requires GroupsSending(groups, mid, before, todo, desired, env, healthy) && name in todo && name in desired
      requires forall n :: n in mid ==> n in before && mid[n] == before[n]
      requires name in before ==> name in mid
      requires after == groups || after == groups[name := desired[name]]
      requires healthy ==>
        after == if name in groups && !GroupDrifted(name, groups, desired, env) then groups else groups[name := desired[name]]
      ensures GroupsSending(after, mid, before, todo - {name}, desired, env, healthy)
    {
      hide PeerGroupConfigEqual, GroupView;
    }

    lemma GroupUntouchedWhileWaiting(name: string, groups: map<string, PeerGroup>, mid: map<string, PeerGroup>,
                                     before: map<string, PeerGroup>, todo: set<string>,
                                     desired: map<string, PeerGroup>, env: Defaults, healthy: bool)
      requires GroupsSending(groups, mid, before, todo, desired, env, healthy) && name in todo
      ensures name in groups <==> name in mid
      ensures name in groups ==> groups[name] == mid[name]
    {
      hide GroupDrifted;
    }

    lemma GroupsSendingStart(mid: map<string, PeerGroup>, before: map<string, PeerGroup>,
                             desired: map<string, PeerGroup>, env: Defaults, healthy: bool)
      ensures GroupsSending(mid, mid, before, desired.Keys, desired, env, healthy)
    {
      hide GroupDrifted;
    }

    /** One turn of step 4 of reconcilePeerGroups. */
    method SendGroup(name: string, current: map<string, PeerGroup>, desired: map<string, PeerGroup>)
      requires daemon.Valid() && name in desired
      requires desired[name].conf.peerGroupName == name && Encodable(desired[name].conf.sendCommunity)
      requires name in current ==> name in daemon.groups && current[name] == GroupView(daemon.groups[name], daemon.env)
      requires daemon.healthy ==> (name in current <==> name in daemon.groups)
      modifies daemon`groups, daemon`writes, daemon`applied
      ensures daemon.Valid()
      ensures daemon.groups == old(daemon.groups) || daemon.groups == old(daemon.groups)[name := desired[name]]
      ensures daemon.healthy ==>
        daemon.groups == if name in old(daemon.groups) && !GroupDrifted(name, old(daemon.groups), desired, daemon.env)
                         then old(daemon.groups) else old(daemon.groups)[name := desired[name]]
      ensures |GroupWork(daemon.groups, desired, daemon.env)| + daemon.applied
              == |GroupWork(old(daemon.groups), desired, daemon.env)| + old(daemon.applied)
      ensures daemon.healthy ==> daemon.writes - old(daemon.writes) == daemon.applied - old(daemon.applied)
    {
      hide GroupView, PeerGroupConfigEqual, GroupWork;
      if name !in current {
        if name !in daemon.groups {
          SendingShrinksGroupWork(name, daemon.groups, desired, daemon.env);
        }
        var _ := daemon.AddPeerGroup(desired[name]);
      } else if !PeerGroupConfigEqual(desired[name], current[name]) {
        SendingShrinksGroupWork(name, daemon.groups, desired, daemon.env);
        var _ := daemon.UpdatePeerGroup(desired[name]);
      }
    }

    method SendGroups(current: map<string, PeerGroup>, desired: map<string, PeerGroup>, ghost before: map<string, PeerGroup>)
      requires daemon.Valid() && SoundGroups(desired)
      requires forall n :: n in current ==> n in before && current[n] == GroupView(before[n], daemon.env)
      requires forall n :: n in daemon.groups ==> n in before && daemon.groups[n] == before[n]
      requires forall n :: n in desired && n in before ==> n in daemon.groups
      requires daemon.healthy ==> current.Keys == before.Keys
      modifies daemon`groups, daemon`writes, daemon`applied
      ensures daemon.Valid()
      ensures GroupsSending(daemon.groups, old(daemon.groups), before, {}, desired, daemon.env, daemon.healthy)
      ensures |GroupWork(daemon.groups, desired, daemon.env)| + daemon.applied
              == |GroupWork(old(daemon.groups), desired, daemon.env)| + old(daemon.applied)
      ensures daemon.healthy ==> daemon.writes - old(daemon.writes) == daemon.applied - old(daemon.applied)
    {
      hide GroupView, PeerGroupConfigEqual, GroupWork, GroupDrifted, GroupsSending, KeyedGroups, KeyedPeers;
      ghost var mid := daemon.groups;
      var todo := desired.Keys;
      GroupsSendingStart(mid, before, desired, daemon.env, daemon.healthy);
      while todo != {}
        invariant todo <= desired.Keys
        invariant daemon.Valid()
        invariant GroupsSending(daemon.groups, mid, before, todo, desired, daemon.env, daemon.healthy)
        invariant |GroupWork(daemon.groups, desired, daemon.env)| + daemon.applied
                  == |GroupWork(mid, desired, daemon.env)| + old(daemon.applied)
        invariant daemon.healthy ==> daemon.writes - old(daemon.writes) == daemon.applied - old(daemon.applied)
      {
        var name :| name in todo;
        GroupUntouchedWhileWaiting(name, daemon.groups, mid, before, todo, desired, daemon.env, daemon.healthy);
        ghost var groups := daemon.groups;
        SendGroup(name, current, desired);
        GroupsSendingStep(name, groups, daemon.groups, mid, before, todo, desired, daemon.env, daemon.healthy);
        todo := todo - {name};
      }
    }

    /** reconcilePeerGroups. Whatever fails, no desired group and no group with members is lost; without
        failures the groups end up settled, after exactly the calls that were needed or refused, and the daemon
        shows what each desired group states. */
    method ReconcilePeerGroups(specs: seq<PeerGroupSpec>) returns (ok: bool, desired: map<string, PeerGroup>)
      requires daemon.Valid()
      modifies daemon`groups, daemon`writes, daemon`applied
      ensures daemon.Valid()
      ensures DesiredGroups(specs, world).Err? ==> !ok
      ensures !ok ==> daemon.groups == old(daemon.groups) && daemon.writes == old(daemon.writes)
      ensures ok ==> DesiredGroups(specs, world) == Ok(desired)
      ensures DesiredGroups(specs, world).Ok? ==>
        var wanted := DesiredGroups(specs, world).value;
        && (forall n :: n in old(daemon.groups) && (n in wanted || HasMembers(n, daemon.peers)) ==> n in daemon.groups)
        && OldOrDesired(daemon.groups, old(daemon.groups), wanted)
        && |GroupWork(daemon.groups, wanted, daemon.env)| + daemon.applied
           == |GroupWork(old(daemon.groups), wanted, daemon.env)| + old(daemon.applied)
        && (daemon.healthy ==>
            && ok && daemon.groups == SettledGroups(old(daemon.groups), daemon.peers, wanted, daemon.env)
            && GroupsAgree(daemon.groups, wanted, daemon.env) && AllGroupsShown(specs, world, daemon.groups, daemon.env)
            && daemon.writes - old(daemon.writes) == |GroupWork(old(daemon.groups), wanted, daemon.env)|)
    {
      hide GroupView, PeerGroupConfigEqual, GroupWork, SettledGroups, GroupsDeleted, GroupsSending, DesiredGroups,
           KeyedGroups, KeyedPeers, HasMembers, GroupsAgree, AllGroupsShown;
      ghost var before := daemon.groups;
      var current;
      desired := map[];
      ok, current := ListGroups();
      if !ok {
        return;
      }
      ok, desired := BuildDesiredGroups(specs);
      if !ok {
        return;
      }
      DesiredGroupsAreSound(specs, world);
      DeleteUnwantedGroups(current, desired);
      ghost var mid := daemon.groups;
      GroupDeletionFrame(mid, before, current.Keys, desired, daemon.peers, daemon.healthy);
      SendGroups(current, desired, before);
      GroupPassOutcome(daemon.groups, mid, before, current.Keys, desired, daemon.peers, daemon.env, daemon.healthy);
      if daemon.healthy {
        OnlyMemberlessGone(mid, before, desired, daemon.peers);
        GroupCallCount(mid, before, desired, daemon.peers, daemon.env);
        SettledGroupsShow(specs, world, before, daemon.peers, desired, daemon.env);
      }
    }

    lemma OnlyMemberlessGone(mid: map<string, PeerGroup>, before: map<string, PeerGroup>, desired: map<string, PeerGroup>,
                             peers: map<string, Peer>)
      requires GroupsDeleted(mid, before, before.Keys, desired, peers, true)
      ensures forall n :: n in mid <==> n in before && (n in desired || HasMembers(n, peers))
      ensures forall n :: n in mid ==> mid[n] == before[n]
    {
      hide HasMembers;
    }

    lemma GroupDeletionFrame(mid: map<string, PeerGroup>, before: map<string, PeerGroup>, done: set<string>,
                             desired: map<string, PeerGroup>, peers: map<string, Peer>, healthy: bool)
      requires GroupsDeleted(mid, before, done, desired, peers, healthy)
      ensures forall n :: n in mid ==> n in before && mid[n] == before[n]
      ensures forall n :: n in desired && n in before ==> n in mid
    {
      hide HasMembers;
    }

    lemma GroupPassOutcome(groups: map<string, PeerGroup>, mid: map<string, PeerGroup>, before: map<string, PeerGroup>,
                           listed: set<string>, desired: map<string, PeerGroup>, peers: map<string, Peer>,
                           env: Defaults, healthy: bool)
      requires SoundGroups(desired)
      requires GroupsDeleted(mid, before, listed, desired, peers, healthy)
      requires healthy ==> listed == before.Keys
      requires GroupsSending(groups, mid, before, {}, desired, env, healthy)
      ensures forall n :: n in before && (n in desired || HasMembers(n, peers)) ==> n in groups
      ensures OldOrDesired(groups, before, desired)
      ensures healthy ==> groups == SettledGroups(before, peers, desired, env)
    {
      hide PeerGroupConfigEqual, GroupView, HasMembers;
      if healthy {
        var g := SettledGroups(before, peers, desired, env);
        assert forall n :: n in groups <==> n in g;
        assert forall n :: n in groups ==> groups[n] == g[n];
      }
    }
  }
}
