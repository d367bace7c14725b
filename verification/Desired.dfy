/** The desired sets that a pass builds, and what they are in the resource's own terms. */
module Desired {
  import opened Wrappers
  import opened Messages
  import opened Converters

  /** Skipped leaves an entry out on this node; Refused aborts the whole pass before any write. */
  datatype Admission<T> = Skipped | Refused | Taken(message: T)

  function SelectorOf(selector: Option<string>, world: World): SelectorOutcome {
    if selector.None? then Matches else world.selects(selector.value)
  }

  function AdmitNeighbor(n: Neighbor, groups: map<string, PeerGroup>, world: World): Admission<Peer> {
    match SelectorOf(n.nodeSelector, world)
    case LookupFailed => Refused
    case Differs => Skipped
    case Matches =>
      if n.config.peerGroup != "" && n.config.peerGroup !in groups then Skipped
      else match ResolveAuthPassword(n.config.authPassword, n.config.authPasswordSecretRef, world)
           case Err => Refused
           case Ok(password) => Taken(ToPeer(n, password))
  }

  function AdmitGroup(g: PeerGroupSpec, world: World): Admission<PeerGroup> {
    match SelectorOf(g.nodeSelector, world)
    case LookupFailed => Refused
    case Differs => Skipped
    case Matches =>
      match ResolveAuthPassword(Some(g.config.authPassword), g.config.authPasswordSecretRef, world)
      case Err => Refused
      case Ok(password) => Taken(ToPeerGroup(g, password.GetOr("")))
  }

  /** A later entry with the same key replaces an earlier one. */
  function DesiredNeighbors(ns: seq<Neighbor>, groups: map<string, PeerGroup>, world: World): Result<map<string, Peer>> {
    if ns == [] then Ok(map[])
    else
      match DesiredNeighbors(ns[..|ns| - 1], groups, world)
      case Err => Err
      case Ok(m) =>
        match AdmitNeighbor(ns[|ns| - 1], groups, world)
        case Refused => Err
        case Skipped => Ok(m)
        case Taken(p) => Ok(m[PeerKey(p.conf) := p])
  }

  function DesiredGroups(gs: seq<PeerGroupSpec>, world: World): Result<map<string, PeerGroup>> {
    if gs == [] then Ok(map[])
    else
      match DesiredGroups(gs[..|gs| - 1], world)
      case Err => Err
      case Ok(m) =>
        match AdmitGroup(gs[|gs| - 1], world)
        case Refused => Err
        case Skipped => Ok(m)
        case Taken(g) => Ok(m[g.conf.peerGroupName := g])
  }

  // ---- in the resource's own terms ----

  lemma ConvertedKey(n: Neighbor, password: Option<string>)
    ensures PeerKey(ToPeer(n, password).conf) == KeyFromConfig(n.config)
  {
  }

  lemma TakenKey(n: Neighbor, groups: map<string, PeerGroup>, world: World)
    ensures AdmitNeighbor(n, groups, world).Taken? ==> PeerKey(AdmitNeighbor(n, groups, world).message.conf) == KeyFromConfig(n.config)
  {
  }

  /** An entry without a node selector, or with one that matches. */
  predicate RunsHere(selector: Option<string>, world: World) {
    selector.None? || world.selects(selector.value) == Matches
  }

  /** The password of a named Secret's key, which must be there, or else the inline one. */
  predicate PasswordIs(password: Option<string>, inline: Option<string>, ref: Option<SecretRef>, world: World) {
    if ref.Some? && ref.value.name != "" then
      && ref.value.name in world.secrets && ref.value.key in world.secrets[ref.value.name]
      && password == Some(world.secrets[ref.value.name][ref.value.key])
    else password == inline
  }

  predicate AppliesHere(n: Neighbor, groups: map<string, PeerGroup>, world: World) {
    RunsHere(n.nodeSelector, world) && (n.config.peerGroup == "" || n.config.peerGroup in groups)
  }

  ghost predicate HasPassword(inline: Option<string>, ref: Option<SecretRef>, world: World) {
    exists password :: PasswordIs(password, inline, ref, world)
  }

  lemma AdmissionIs(n: Neighbor, groups: map<string, PeerGroup>, world: World)
    ensures var a := AdmitNeighbor(n, groups, world);
      && (a.Refused? <==>
           || (n.nodeSelector.Some? && world.selects(n.nodeSelector.value) == LookupFailed)
           || (AppliesHere(n, groups, world) && !HasPassword(n.config.authPassword, n.config.authPasswordSecretRef, world)))
      && (a.Taken? <==> AppliesHere(n, groups, world) && HasPassword(n.config.authPassword, n.config.authPasswordSecretRef, world))
      && (a.Taken? ==> exists p :: PasswordIs(p, n.config.authPassword, n.config.authPasswordSecretRef, world) && a.message == ToPeer(n, p))
  {
    hide ToPeer;
    PasswordResolution(n.config.authPassword, n.config.authPasswordSecretRef, world);
    hide PasswordIs, ResolveAuthPassword;
  }

  lemma PasswordResolution(inline: Option<string>, ref: Option<SecretRef>, world: World)
    ensures ResolveAuthPassword(inline, ref, world).Ok? <==> HasPassword(inline, ref, world)
    ensures ResolveAuthPassword(inline, ref, world).Ok? ==>
      forall p :: PasswordIs(p, inline, ref, world) <==> p == ResolveAuthPassword(inline, ref, world).value
  {
    var r := ResolveAuthPassword(inline, ref, world);
    if r.Ok? {
      assert PasswordIs(r.value, inline, ref, world);
    }
  }

  /** Entry i applies on this node, and no later one with its key does. */
  ghost predicate LastOfKey(ns: seq<Neighbor>, i: nat, groups: map<string, PeerGroup>, world: World)
    requires i < |ns|
  {
    && AppliesHere(ns[i], groups, world)
    && forall j :: i < j < |ns| && AppliesHere(ns[j], groups, world) ==> KeyFromConfig(ns[j].config) != KeyFromConfig(ns[i].config)
  }

  ghost predicate SentFor(n: Neighbor, p: Peer, world: World) {
    exists password :: PasswordIs(password, n.config.authPassword, n.config.authPasswordSecretRef, world) && p == ToPeer(n, password)
  }

  /** A map with exactly the keys of the entries that apply, each holding the message of the last of its key. */
  ghost predicate IsDesired(ns: seq<Neighbor>, groups: map<string, PeerGroup>, world: World, desired: map<string, Peer>) {
    && (forall i :: 0 <= i < |ns| && LastOfKey(ns, i, groups, world) ==>
         KeyFromConfig(ns[i].config) in desired && SentFor(ns[i], desired[KeyFromConfig(ns[i].config)], world))
    && (forall k :: k in desired ==> exists i :: 0 <= i < |ns| && LastOfKey(ns, i, groups, world) && KeyFromConfig(ns[i].config) == k)
  }

  lemma LastOfLonger(ns: seq<Neighbor>, i: nat, groups: map<string, PeerGroup>, world: World)
    requires ns != [] && i < |ns| - 1
    ensures LastOfKey(ns, i, groups, world) <==>
            && LastOfKey(ns[..|ns| - 1], i, groups, world)
            && !(AppliesHere(ns[|ns| - 1], groups, world) && KeyFromConfig(ns[|ns| - 1].config) == KeyFromConfig(ns[i].config))
  {
    hide AppliesHere, KeyFromConfig;
    var init := ns[..|ns| - 1];
    assert forall j :: 0 <= j < |init| ==> init[j] == ns[j];
  }

  lemma DesiredStep(ns: seq<Neighbor>, groups: map<string, PeerGroup>, world: World, m: map<string, Peer>, p: Option<Peer>)
    requires ns != [] && IsDesired(ns[..|ns| - 1], groups, world, m)
    requires p.Some? <==> AppliesHere(ns[|ns| - 1], groups, world)
    requires p.Some? ==> SentFor(ns[|ns| - 1], p.value, world)
    ensures IsDesired(ns, groups, world, if p.Some? then m[KeyFromConfig(ns[|ns| - 1].config) := p.value] else m)
  {
    hide AppliesHere, KeyFromConfig, LastOfKey, SentFor;
    var n := |ns| - 1;
    var init, key := ns[..n], KeyFromConfig(ns[n].config);
    var after := if p.Some? then m[key := p.value] else m;
    LastIsLast(ns, groups, world);
    forall i | 0 <= i < |ns| && LastOfKey(ns, i, groups, world)
      ensures KeyFromConfig(ns[i].config) in after && SentFor(ns[i], after[KeyFromConfig(ns[i].config)], world) {
      if i < n {
        LastOfLonger(ns, i, groups, world);
        assert init[i] == ns[i];
      }
    }
    forall k | k in after ensures exists i :: 0 <= i < |ns| && LastOfKey(ns, i, groups, world) && KeyFromConfig(ns[i].config) == k {
      if p.Some? && k == key {
        assert LastOfKey(ns, n, groups, world);
      } else {
        var i :| 0 <= i < |init| && LastOfKey(init, i, groups, world) && KeyFromConfig(init[i].config) == k;
        assert init[i] == ns[i];
        LastOfLonger(ns, i, groups, world);
      }
    }
  }

  lemma LastIsLast(ns: seq<Neighbor>, groups: map<string, PeerGroup>, world: World)
    requires ns != []
    ensures LastOfKey(ns, |ns| - 1, groups, world) <==> AppliesHere(ns[|ns| - 1], groups, world)
  {
  }

  /** The desired set is what the resource says: fails exactly when some entry's selector or password cannot be
      looked up, and else holds for each key the message of the last entry that applies here. */
  lemma {:induction false} DesiredNeighborsAre(ns: seq<Neighbor>, groups: map<string, PeerGroup>, world: World)
    ensures DesiredNeighbors(ns, groups, world).Err? <==>
            exists i :: 0 <= i < |ns| && AdmitNeighbor(ns[i], groups, world).Refused?
    ensures DesiredNeighbors(ns, groups, world).Ok? ==>
            IsDesired(ns, groups, world, DesiredNeighbors(ns, groups, world).value)
  {
    hide AdmitNeighbor, AppliesHere, IsDesired, KeyFromConfig, PeerKey, SentFor;
    if ns == [] {
      NothingDesired(groups, world);
    } else {
      var n := |ns| - 1;
      DesiredNeighborsAre(ns[..n], groups, world);
      assert forall i :: 0 <= i < n ==> ns[..n][i] == ns[i];
      AdmissionGives(ns[n], groups, world);
      TakenKey(ns[n], groups, world);
      if DesiredNeighbors(ns, groups, world).Ok? {
        var a := AdmitNeighbor(ns[n], groups, world);
        DesiredStep(ns, groups, world, DesiredNeighbors(ns[..n], groups, world).value, if a.Taken? then Some(a.message) else None);
      }
    }
  }

  lemma AdmissionGives(n: Neighbor, groups: map<string, PeerGroup>, world: World)
    ensures var a := AdmitNeighbor(n, groups, world);
      !a.Refused? ==> (a.Taken? <==> AppliesHere(n, groups, world)) && (a.Taken? ==> SentFor(n, a.message, world))
  {
    AdmissionIs(n, groups, world);
    hide AdmitNeighbor, ToPeer, PasswordIs, AppliesHere;
  }

  lemma NothingDesired(groups: map<string, PeerGroup>, world: World)
    ensures IsDesired([], groups, world, map[])
  {
  }

  // ---- the desired groups, likewise ----

  ghost predicate LastOfName(gs: seq<PeerGroupSpec>, i: nat, world: World)
    requires i < |gs|
  {
    && RunsHere(gs[i].nodeSelector, world)
    && forall j :: i < j < |gs| && RunsHere(gs[j].nodeSelector, world) ==> gs[j].config.peerGroupName != gs[i].config.peerGroupName
  }

  ghost predicate GroupSentFor(g: PeerGroupSpec, m: PeerGroup, world: World) {
    exists password :: PasswordIs(Some(password), Some(g.config.authPassword), g.config.authPasswordSecretRef, world) && m == ToPeerGroup(g, password)
  }

  ghost predicate AreDesiredGroups(gs: seq<PeerGroupSpec>, world: World, desired: map<string, PeerGroup>) {
    && (forall i :: 0 <= i < |gs| && LastOfName(gs, i, world) ==>
         gs[i].config.peerGroupName in desired && GroupSentFor(gs[i], desired[gs[i].config.peerGroupName], world))
    && (forall n :: n in desired ==> exists i :: 0 <= i < |gs| && LastOfName(gs, i, world) && gs[i].config.peerGroupName == n)
  }

  lemma GroupAdmissionGives(g: PeerGroupSpec, world: World)
    ensures var a := AdmitGroup(g, world);
      && (a.Refused? <==>
           || (g.nodeSelector.Some? && world.selects(g.nodeSelector.value) == LookupFailed)
           || (RunsHere(g.nodeSelector, world) && !HasPassword(Some(g.config.authPassword), g.config.authPasswordSecretRef, world)))
      && (!a.Refused? ==>
           && (a.Taken? <==> RunsHere(g.nodeSelector, world))
           && (a.Taken? ==> GroupSentFor(g, a.message, world) && a.message.conf.peerGroupName == g.config.peerGroupName))
  {
    var r := ResolveAuthPassword(Some(g.config.authPassword), g.config.authPasswordSecretRef, world);
    PasswordResolution(Some(g.config.authPassword), g.config.authPasswordSecretRef, world);
    if r.Ok? {
      assert PasswordIs(Some(r.value.GetOr("")), Some(g.config.authPassword), g.config.authPasswordSecretRef, world);
    }
    hide PasswordIs, ResolveAuthPassword;
  }

  lemma LastOfLongerNames(gs: seq<PeerGroupSpec>, i: nat, world: World)
    requires gs != [] && i < |gs| - 1
    ensures LastOfName(gs, i, world) <==>
            && LastOfName(gs[..|gs| - 1], i, world)
            && !(RunsHere(gs[|gs| - 1].nodeSelector, world) && gs[|gs| - 1].config.peerGroupName == gs[i].config.peerGroupName)
  {
    hide RunsHere;
    var init := gs[..|gs| - 1];
    assert forall j :: 0 <= j < |init| ==> init[j] == gs[j];
  }

  lemma DesiredGroupsStep(gs: seq<PeerGroupSpec>, world: World, m: map<string, PeerGroup>, g: Option<PeerGroup>)
    requires gs != [] && AreDesiredGroups(gs[..|gs| - 1], world, m)
    requires g.Some? <==> RunsHere(gs[|gs| - 1].nodeSelector, world)
    requires g.Some? ==> GroupSentFor(gs[|gs| - 1], g.value, world)
    ensures AreDesiredGroups(gs, world, if g.Some? then m[gs[|gs| - 1].config.peerGroupName := g.value] else m)
  {
    hide RunsHere, GroupSentFor;
    var n := |gs| - 1;
    var init, name := gs[..n], gs[n].config.peerGroupName;
    var after := if g.Some? then m[name := g.value] else m;
    assert LastOfName(gs, n, world) <==> g.Some?;
    hide LastOfName;
    forall i | 0 <= i < |gs| && LastOfName(gs, i, world)
      ensures gs[i].config.peerGroupName in after && GroupSentFor(gs[i], after[gs[i].config.peerGroupName], world) {
      if i < n {
        LastOfLongerNames(gs, i, world);
        assert init[i] == gs[i];
      }
    }
    forall k | k in after ensures exists i :: 0 <= i < |gs| && LastOfName(gs, i, world) && gs[i].config.peerGroupName == k {
      if g.Some? && k == name {
        assert LastOfName(gs, n, world);
      } else {
        var i :| 0 <= i < |init| && LastOfName(init, i, world) && init[i].config.peerGroupName == k;
        assert init[i] == gs[i];
        LastOfLongerNames(gs, i, world);
      }
    }
  }

  lemma {:induction false} DesiredGroupsAre(gs: seq<PeerGroupSpec>, world: World)
    ensures DesiredGroups(gs, world).Err? <==> exists i :: 0 <= i < |gs| && AdmitGroup(gs[i], world).Refused?
    ensures DesiredGroups(gs, world).Ok? ==> AreDesiredGroups(gs, world, DesiredGroups(gs, world).value)
  {
    hide AdmitGroup, RunsHere, AreDesiredGroups, GroupSentFor;
    if gs == [] {
      NoDesiredGroups(world);
    } else {
      var n := |gs| - 1;
      DesiredGroupsAre(gs[..n], world);
      assert forall i :: 0 <= i < n ==> gs[..n][i] == gs[i];
      GroupAdmissionGives(gs[n], world);
      if DesiredGroups(gs, world).Ok? {
        var a := AdmitGroup(gs[n], world);
        DesiredGroupsStep(gs, world, DesiredGroups(gs[..n], world).value, if a.Taken? then Some(a.message) else None);
      }
    }
  }

  lemma NoDesiredGroups(world: World)
    ensures AreDesiredGroups([], world, map[])
  {
  }
}
