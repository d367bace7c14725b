/** What a configuration leaves behind: cleanup walks the spec as it is at the end, not what was ever sent. */
module Tenure {
  import opened Wrappers
  import opened Messages
  import opened Converters
  import opened Echo
  import opened Comparators
  import opened Daemon
  import opened Desired
  import opened Plans
  import opened Reconciler
  import opened Outcome
  import opened Cleanup
  import opened Convergence

  /** A spec: what it asks for, and what else its cleanup walks. */
  datatype Intent = Intent(neighbors: seq<Neighbor>, groups: seq<PeerGroupSpec>, prefixes: seq<string>, rest: CleanupSpec)

  /** What happens to a configuration: an edit, or a reconcile with a daemon that may fail. An edit that is
      invalid, or followed at once by a request to delete, is never reconciled. */
  datatype Act = Edit(intent: Intent) | Apply(healthy: bool)

  function GroupNames(specs: seq<PeerGroupSpec>): (r: seq<string>)
    ensures |r| == |specs|
  {
    seq(|specs|, i requires 0 <= i < |specs| => specs[i].config.peerGroupName)
  }

  function CleanupOf(i: Intent): CleanupSpec {
    i.rest.(neighbors := i.neighbors, groups := GroupNames(i.groups), dynamicPrefixes := i.prefixes)
  }

  /** What an intent wants of a daemon on this node, unless a lookup fails. */
  function Wanted(i: Intent, world: World): Result<Target> {
    match DesiredGroups(i.groups, world)
    case Err => Err
    case Ok(groups) =>
      match DesiredNeighbors(i.neighbors, groups, world)
      case Err => Err
      case Ok(desired) => Ok(Target(groups, Goal(desired, i.prefixes, world.contains)))
  }

  function WantedPeers(i: Intent, world: World): set<string> {
    match Wanted(i, world) case Err => {} case Ok(t) => t.goal.desired.Keys
  }

  function WantedGroups(i: Intent, world: World): set<string> {
    match DesiredGroups(i.groups, world) case Err => {} case Ok(groups) => groups.Keys
  }

  /** Every desired key is that of some entry. */
  lemma {:induction false} DesiredAreNamed(ns: seq<Neighbor>, groups: map<string, PeerGroup>, world: World)
    requires DesiredNeighbors(ns, groups, world).Ok?
    ensures forall k :: k in DesiredNeighbors(ns, groups, world).value ==> k in KeysOf(ns)
  {
    hide AdmitNeighbor, KeyFromConfig, PeerKey;
    if ns != [] {
      var n := |ns| - 1;
      DesiredAreNamed(ns[..n], groups, world);
      TakenKey(ns[n], groups, world);
      assert KeysOf(ns) == KeysOf(ns[..n]) + [KeyFromConfig(ns[n].config)];
    }
  }

  // ---- what the acts add up to ----

  function LastIntent(first: Intent, acts: seq<Act>): Intent {
    if acts == [] then first
    else match acts[|acts| - 1] case Edit(i) => i case Apply(_) => LastIntent(first, acts[..|acts| - 1])
  }

  /** The peers wanted by some reconcile, and by some reconcile against a healthy daemon. */
  function EverWanted(first: Intent, acts: seq<Act>, world: World, onlyHealthy: bool): set<string> {
    if acts == [] then {}
    else
      var init := acts[..|acts| - 1];
      EverWanted(first, init, world, onlyHealthy) +
      match acts[|acts| - 1]
      case Edit(_) => {}
      case Apply(healthy) => if healthy || !onlyHealthy then WantedPeers(LastIntent(first, init), world) else {}
  }

  function GroupsEverWanted(first: Intent, acts: seq<Act>, world: World, onlyHealthy: bool): set<string> {
    if acts == [] then {}
    else
      var init := acts[..|acts| - 1];
      GroupsEverWanted(first, init, world, onlyHealthy) +
      match acts[|acts| - 1]
      case Edit(_) => {}
      case Apply(healthy) => if healthy || !onlyHealthy then WantedGroups(LastIntent(first, init), world) else {}
  }

  /** After a pass without failures every desired peer is held, and what is held beyond them a range keeps. */
  lemma PassLeaves(s: State, t: Target, env: Defaults)
    ensures t.goal.desired.Keys <= Pass(s, t, env).peers.Keys
    ensures forall k :: k in Pass(s, t, env).peers && k !in t.goal.desired ==> Kept(Pass(s, t, env).peers[k], t.goal, env)
  {
    hide Kept, NeedsUpdate, View, SettledGroups;
  }

  class Configuration {
    const reconciler: BGPConfigurationReconciler
    const cleanup: CleanupReconciler
    var intent: Intent
    /** The peers and groups that reconciles sent, or would have had a call not failed. */
    ghost var sent: set<string>
    ghost var sentGroups: set<string>

    constructor (reconciler: BGPConfigurationReconciler, cleanup: CleanupReconciler, intent: Intent)
      requires reconciler.daemon == cleanup.node.gobgpd && reconciler.daemon.Valid()
      ensures Valid() && this.intent == intent && sent == {} && sentGroups == {}
      ensures this.reconciler == reconciler && this.cleanup == cleanup
    {
      this.reconciler, this.cleanup, this.intent := reconciler, cleanup, intent;
      sent, sentGroups := {}, {};
    }

    ghost predicate Valid()
      reads this, reconciler, cleanup, cleanup.node, reconciler.daemon
    {
      reconciler.daemon == cleanup.node.gobgpd && reconciler.daemon.Valid()
    }

    ghost function Held(): State
      reads reconciler, reconciler.daemon
    {
      StateOf(reconciler.daemon)
    }

    /** One reconcile of the present intent. What is held afterwards was held or is sent. Without failures it
        succeeds exactly when the intent wants something definite, and then is one pass towards that. */
    method Reconcile() returns (ok: bool)
      requires Valid()
      modifies this`sent, this`sentGroups, reconciler,
               reconciler.daemon`peers, reconciler.daemon`groups, reconciler.daemon`writes, reconciler.daemon`applied
      ensures Valid()
      ensures old(sent) <= sent <= old(sent) + WantedPeers(intent, reconciler.world)
      ensures old(sentGroups) <= sentGroups <= old(sentGroups) + WantedGroups(intent, reconciler.world)
      ensures forall k :: k in Held().peers ==> k in old(Held().peers) || k in sent
      ensures forall n :: n in Held().groups ==> n in old(Held().groups) || n in sentGroups
      ensures ok ==> Wanted(intent, reconciler.world).Ok?
      ensures reconciler.daemon.healthy ==>
        && (ok <==> Wanted(intent, reconciler.world).Ok?)
        && sent == old(sent) + WantedPeers(intent, reconciler.world)
        && sentGroups == old(sentGroups) + WantedGroups(intent, reconciler.world)
        && (ok ==> Held() == Pass(old(Held()), Wanted(intent, reconciler.world).value, reconciler.daemon.env))
    {
      hide KeyedPeers, KeyedGroups, DesiredGroups, DesiredNeighbors, Work, GroupWork, Settled, SettledGroups,
           HasMembers, Unwanted, InheritedMap, AllShown, HeldAreNamedOrKept, GroupsAgree, AllGroupsShown;
      var groups;
      ok, groups := reconciler.ReconcilePeerGroups(intent.groups);
      if DesiredGroups(intent.groups, reconciler.world).Ok? {
        sentGroups := sentGroups + DesiredGroups(intent.groups, reconciler.world).value.Keys;
      }
      if !ok {
        return;
      }
      ok := reconciler.ReconcileNeighbors(intent.neighbors, intent.prefixes, groups);
      if DesiredNeighbors(intent.neighbors, groups, reconciler.world).Ok? {
        sent := sent + DesiredNeighbors(intent.neighbors, groups, reconciler.world).value.Keys;
      }
    }

    /** Any life of a configuration up to its deletion: the intent is that of the last edit; what was sent is at
        most all that was wanted, and at least what a healthy daemon was asked for; and nothing is held that was
        neither held before nor sent. */
    method Live(acts: seq<Act>)
      requires Valid()
      modifies this`intent, this`sent, this`sentGroups, reconciler, reconciler.daemon
      ensures Valid()
      ensures intent == LastIntent(old(intent), acts)
      ensures old(sent) + EverWanted(old(intent), acts, reconciler.world, true)
              <= sent <= old(sent) + EverWanted(old(intent), acts, reconciler.world, false)
      ensures old(sentGroups) + GroupsEverWanted(old(intent), acts, reconciler.world, true)
              <= sentGroups <= old(sentGroups) + GroupsEverWanted(old(intent), acts, reconciler.world, false)
      ensures forall k :: k in Held().peers ==> k in old(Held().peers) || k in sent
      ensures forall n :: n in Held().groups ==> n in old(Held().groups) || n in sentGroups
      ensures acts != [] && acts[|acts| - 1] == Apply(true) ==> WantedPeers(intent, reconciler.world) <= Held().peers.Keys
    {
      hide KeyedPeers, KeyedGroups, Wanted, WantedPeers, WantedGroups, Pass;
      for i := 0 to |acts|
        invariant Valid()
        invariant intent == LastIntent(old(intent), acts[..i])
        invariant old(sent) + EverWanted(old(intent), acts[..i], reconciler.world, true) <= sent
        invariant sent <= old(sent) + EverWanted(old(intent), acts[..i], reconciler.world, false)
        invariant old(sentGroups) + GroupsEverWanted(old(intent), acts[..i], reconciler.world, true) <= sentGroups
        invariant sentGroups <= old(sentGroups) + GroupsEverWanted(old(intent), acts[..i], reconciler.world, false)
        invariant forall k :: k in Held().peers ==> k in old(Held().peers) || k in sent
        invariant forall n :: n in Held().groups ==> n in old(Held().groups) || n in sentGroups
        invariant i > 0 && acts[i - 1] == Apply(true) ==> WantedPeers(intent, reconciler.world) <= Held().peers.Keys
      {
        assert acts[..i + 1][..i] == acts[..i];
        match acts[i] {
          case Edit(next) => intent := next;
          case Apply(healthy) =>
            reconciler.daemon.healthy := healthy;
            ghost var before := Held();
            var ok := Reconcile();
            if healthy {
              WantedAreHeld(before, intent, reconciler.world, reconciler.daemon.env);
            }
        }
      }
      assert acts[..|acts|] == acts;
    }

    lemma WantedAreHeld(s: State, i: Intent, world: World, env: Defaults)
      ensures Wanted(i, world).Ok? ==> WantedPeers(i, world) <= Pass(s, Wanted(i, world).value, env).peers.Keys
      ensures Wanted(i, world).Err? ==> WantedPeers(i, world) == {}
    {
      hide Pass;
      if Wanted(i, world).Ok? {
        PassLeaves(s, Wanted(i, world).value, env);
      }
    }

    /** The deletion, with any number of retries. A release leaves exactly the peers and groups that the intent
        does not name; so nothing that was ever sent is left exactly when everything sent that was still held
        was named. Without failures it is released exactly when it is cleanable. */
    method Delete(passes: nat) returns (released: bool)
      requires Valid()
      modifies cleanup.node`connected, cleanup.node`objects, cleanup.node`exporting, cleanup.node`importing,
               reconciler.daemon`peers, reconciler.daemon`groups, reconciler.daemon`writes, reconciler.daemon`applied
      ensures Valid()
      ensures OnlyGone(Held().peers, old(Held().peers), KeysOf(intent.neighbors))
      ensures OnlyGone(Held().groups, old(Held().groups), GroupNames(intent.groups))
      ensures released ==>
        && (forall k :: k in Held().peers <==> k in old(Held().peers) && k !in KeysOf(intent.neighbors))
        && (forall n :: n in Held().groups <==> n in old(Held().groups) && n !in GroupNames(intent.groups))
      ensures released ==>
        && ((forall k :: k in sent ==> k !in Held().peers) <==>
            (forall k :: k in sent && k in old(Held().peers) ==> k in KeysOf(intent.neighbors)))
        && ((forall n :: n in sentGroups ==> n !in Held().groups) <==>
            (forall n :: n in sentGroups && n in old(Held().groups) ==> n in GroupNames(intent.groups)))
      ensures cleanup.node.Faultless() && passes > 0 ==> Held().peers == Unnamed(old(Held().peers), KeysOf(intent.neighbors))
      ensures cleanup.node.Faultless() && passes >= 2 ==>
        (released <==> Cleanable(CleanupOf(intent), old(Held().peers), old(Held().groups).Keys, reconciler.daemon.strict))
    {
      hide KeyedPeers, KeyedGroups, KeysOf, GroupNames, Cleanable, CleanAtOnce, Unnamed;
      released := cleanup.DeleteUntilReleased(CleanupOf(intent), passes);
    }

    /** Deleted right after a reconcile, without failures: released exactly when cleanable in the state that the
        pass leaves, and then nothing stays but unnamed peers that a dynamic range keeps. */
    method ReconcileThenDelete(passes: nat) returns (released: bool)
      requires Valid() && cleanup.node.Faultless() && passes >= 2
      requires Wanted(intent, reconciler.world).Ok?
      modifies this`sent, this`sentGroups, reconciler, cleanup.node`connected, cleanup.node`objects, cleanup.node`exporting, cleanup.node`importing,
               reconciler.daemon`peers, reconciler.daemon`groups, reconciler.daemon`writes, reconciler.daemon`applied
      ensures Valid()
      ensures var mid := Pass(old(Held()), Wanted(intent, reconciler.world).value, reconciler.daemon.env);
        && (released <==> Cleanable(CleanupOf(intent), mid.peers, mid.groups.Keys, reconciler.daemon.strict))
        && Held().peers == Unnamed(mid.peers, KeysOf(intent.neighbors))
      ensures forall k :: k in Held().peers ==>
        InRange(ReportedAddress(Held().peers[k].conf, reconciler.daemon.env), intent.prefixes, reconciler.world.contains)
    {
      hide KeyedPeers, KeyedGroups, KeysOf, InRange, ReportedAddress, Cleanable, Pass, Wanted, WantedPeers, WantedGroups;
      ghost var before := Held();
      var ok := Reconcile();
      OnlyKeptBeyondNamed(before, intent, reconciler.world, reconciler.daemon.env);
      released := Delete(passes);
    }

    lemma OnlyKeptBeyondNamed(s: State, i: Intent, world: World, env: Defaults)
      requires Wanted(i, world).Ok?
      ensures var peers := Pass(s, Wanted(i, world).value, env).peers;
        forall k :: k in peers && k !in KeysOf(i.neighbors) ==>
          InRange(ReportedAddress(peers[k].conf, env), i.prefixes, world.contains)
    {
      hide Pass, DesiredNeighbors, DesiredGroups, InRange, ReportedAddress, KeysOf;
      PassLeaves(s, Wanted(i, world).value, env);
      DesiredAreNamed(i.neighbors, DesiredGroups(i.groups, world).value, world);
    }

    /** An edit that is not reconciled before the deletion. A peer or group that is held and no longer named
        outlives the configuration, which without failures is released exactly when it is cleanable, and always
        when the last spec names no group. */
    method DropThenDelete(next: Intent, passes: nat) returns (released: bool)
      requires Valid() && passes >= 2
      modifies this`intent, cleanup.node`connected, cleanup.node`objects, cleanup.node`exporting, cleanup.node`importing,
               reconciler.daemon`peers, reconciler.daemon`groups, reconciler.daemon`writes, reconciler.daemon`applied
      ensures intent == next
      ensures forall k :: k in old(Held().peers) && k !in KeysOf(next.neighbors) ==>
        k in Held().peers && Held().peers[k] == old(Held().peers)[k]
      ensures forall n :: n in old(Held().groups) && n !in GroupNames(next.groups) ==>
        n in Held().groups && Held().groups[n] == old(Held().groups)[n]
      ensures cleanup.node.Faultless() ==>
        (released <==> Cleanable(CleanupOf(next), old(Held().peers), old(Held().groups).Keys, reconciler.daemon.strict))
      ensures cleanup.node.Faultless() && next.groups == [] ==> released
    {
      hide KeyedPeers, KeyedGroups, KeysOf, CleanAtOnce, Unnamed;
      intent := next;
      released := Delete(passes);
    }
  }
}
