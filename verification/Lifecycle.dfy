/** One agent, one daemon, and the configurations of a cluster over time: who may write, under which
    identity, and what has to happen before another may. */
module Lifecycle {
  import opened Wrappers
  import opened Messages
  import opened Election

  /** Of a spec: the AS number, and whether the checks before any write accept it. */
  datatype Spec = Spec(asn: uint32, valid: bool, globalValid: bool)

  datatype Object = Object(uid: nat, created: nat, spec: Spec, deleting: bool, finalizer: bool)

  /** The identity of a started BGP speaker. */
  datatype Speaker = Speaker(asn: uint32, routerId: string)

  /** The parts of a reconcile after the global one, in order. */
  datatype Phase = DefinedSets | Policies | Vrfs | PeerGroups | DynamicNeighbors | Neighbors | Netlink

  const PHASES := [DefinedSets, Policies, Vrfs, PeerGroups, DynamicNeighbors, Neighbors, Netlink]

  /** The first n phases, as recorded. */
  function Programme(uid: nat, running: Option<Speaker>, spec: Spec, n: nat): (r: seq<Event>)
    requires n <= |PHASES|
    ensures |r| == n
  {
    seq(n, i requires 0 <= i < n => Applied(uid, PHASES[i], running, spec))
  }

  /** All seven of them. */
  lemma ProgrammeIs(uid: nat, running: Option<Speaker>, spec: Spec)
    ensures Programme(uid, running, spec, |PHASES|) ==
            [Applied(uid, DefinedSets, running, spec), Applied(uid, Policies, running, spec), Applied(uid, Vrfs, running, spec),
             Applied(uid, PeerGroups, running, spec), Applied(uid, DynamicNeighbors, running, spec),
             Applied(uid, Neighbors, running, spec), Applied(uid, Netlink, running, spec)]
  {
  }

  // ---- history ----

  /** What an agent did, by the configuration it did it for, with the spec it acted on. Started, Applied and
      Cleaning stand for calls that may have changed the daemon, whether or not they succeeded. */
  datatype Event =
    | Resolved(uid: nat, routerId: string, spec: Spec)
    | Started(uid: nat, spec: Spec)
    | Applied(uid: nat, phase: Phase, running: Option<Speaker>, spec: Spec)
    | Cleaning(uid: nat)
    | CleanedUp(uid: nat)

  predicate EndsWith(log: seq<Event>, end: seq<Event>) {
    |end| <= |log| && log[|log| - |end|..] == end
  }

  predicate IsWrite(e: Event) {
    e.Started? || e.Applied? || e.Cleaning?
  }

  /** The configurations whose writes have not been cleaned up without errors since. */
  function Unclean(log: seq<Event>): set<nat> {
    if log == [] then {}
    else
      var rest, e := Unclean(log[..|log| - 1]), log[|log| - 1];
      if IsWrite(e) then rest + {e.uid} else if e.CleanedUp? then rest - {e.uid} else rest
  }

  /** Nobody writes while another's writes are unclean. */
  ghost predicate Exclusive(log: seq<Event>) {
    log == [] ||
    (var n := |log| - 1; Exclusive(log[..n]) && (IsWrite(log[n]) ==> Unclean(log[..n]) <= {log[n].uid}))
  }

  predicate IsResolution(e: Event, uid: nat, routerId: string) {
    e.Resolved? && e.uid == uid && e.routerId == routerId
  }

  ghost predicate WasResolved(log: seq<Event>, uid: nat, routerId: string) {
    exists j :: 0 <= j < |log| && IsResolution(log[j], uid, routerId)
  }

  /** Nothing was resolved, started or applied for a spec that the first check refuses, and nothing started or
      applied for one that the check of the global part refuses. */
  ghost predicate OnlyChecked(log: seq<Event>) {
    forall i :: 0 <= i < |log| ==>
      && (log[i].Resolved? || log[i].Started? || log[i].Applied? ==> log[i].spec.valid)
      && (log[i].Started? || log[i].Applied? ==> log[i].spec.globalValid)
  }

  /** Every application ran against a speaker with a non-zero AS number, the configuration's own, and with
      the router ID resolved for that configuration. */
  ghost predicate RightIdentity(log: seq<Event>) {
    forall i :: 0 <= i < |log| && log[i].Applied? ==>
      && log[i].running.Some? && log[i].running.value.asn == log[i].spec.asn != 0
      && exists j :: 0 <= j < i && IsResolution(log[j], log[i].uid, log[i].running.value.routerId)
  }

  /** A configuration's router ID is resolved once. */
  ghost predicate ResolvedOnce(log: seq<Event>) {
    forall i, j :: 0 <= i < j < |log| && log[i].Resolved? && log[j].Resolved? ==> log[i].uid != log[j].uid
  }

  lemma {:induction false} UncleanUntilCleanedUp(log: seq<Event>, i: nat, n: nat)
    requires i < n <= |log| && IsWrite(log[i])
    ensures log[i].uid in Unclean(log[..n]) || exists k :: i < k < n && log[k] == CleanedUp(log[i].uid)
    decreases n
  {
    assert log[..n][..n - 1] == log[..n - 1];
    if i < n - 1 {
      UncleanUntilCleanedUp(log, i, n - 1);
      if log[n - 1] == CleanedUp(log[i].uid) {
        assert i < n - 1 < n;
      }
    }
  }

  lemma {:induction false} ExclusivePrefix(log: seq<Event>, n: nat)
    requires n <= |log| && Exclusive(log)
    ensures Exclusive(log[..n])
  {
    if n < |log| {
      ExclusivePrefix(log[..|log| - 1], n);
      assert log[..|log| - 1][..n] == log[..n];
    } else {
      assert log[..n] == log;
    }
  }

  /** Between writes for two configurations, the first one's cleanup ended without errors. */
  lemma CleanupComesBetween(log: seq<Event>, i: nat, j: nat)
    requires Exclusive(log) && i < j < |log| && IsWrite(log[i]) && IsWrite(log[j]) && log[i].uid != log[j].uid
    ensures exists k :: i < k < j && log[k] == CleanedUp(log[i].uid)
  {
    ExclusivePrefix(log, j + 1);
    assert log[..j + 1][..j] == log[..j];
    UncleanUntilCleanedUp(log, i, j);
  }

  /** All that is ever applied for one configuration is applied under one router ID. */
  lemma OneRouterIdEach(log: seq<Event>, i: nat, j: nat)
    requires RightIdentity(log) && ResolvedOnce(log)
    requires i < |log| && j < |log| && log[i].Applied? && log[j].Applied? && log[i].uid == log[j].uid
    ensures log[i].running.Some? && log[j].running.Some? && log[i].running.value.routerId == log[j].running.value.routerId
  {
    var a :| 0 <= a < i && IsResolution(log[a], log[i].uid, log[i].running.value.routerId);
    var b :| 0 <= b < j && IsResolution(log[b], log[j].uid, log[j].running.value.routerId);
    if a < b {
    } else if b < a {
    }
  }

  // ---- configurations ----

  function MetaOf(id: ConfigId, configs: map<ConfigId, Object>): Config
    requires id in configs
  {
    Config(configs[id].created, id)
  }

  function Metas(configs: map<ConfigId, Object>): set<Config> {
    set id | id in configs :: MetaOf(id, configs)
  }

  ghost predicate IsOwner(id: ConfigId, configs: map<ConfigId, Object>) {
    id in configs && Owns(MetaOf(id, configs), Metas(configs))
  }

  /** The owner with a finalizer: the only configuration that may be unclean or hold a router ID. */
  ghost predicate Holds(id: ConfigId, configs: map<ConfigId, Object>) {
    id in configs && configs[id].finalizer && IsOwner(id, configs)
  }

  /** Unclean writes are those of the holder. */
  ghost predicate WritesHeld(log: seq<Event>, configs: map<ConfigId, Object>) {
    forall u :: u in Unclean(log) ==> exists id :: Holds(id, configs) && configs[id].uid == u
  }

  ghost predicate CleanedUpAfter(log: seq<Event>, i: nat)
    requires i < |log|
  {
    exists k :: i < k < |log| && log[k] == CleanedUp(log[i].uid)
  }

  /** Ownership has left a configuration that ever wrote only after a cleanup that ended without errors. */
  ghost predicate ReleasedAfterCleanup(log: seq<Event>, configs: map<ConfigId, Object>) {
    forall i :: 0 <= i < |log| && IsWrite(log[i]) && (forall id :: IsOwner(id, configs) ==> configs[id].uid != log[i].uid) ==>
      CleanedUpAfter(log, i)
  }

  /** Whoever exists and has ever written is the holder. */
  ghost predicate WritersHold(log: seq<Event>, configs: map<ConfigId, Object>) {
    forall e, id :: e in log && IsWrite(e) && id in configs && configs[id].uid == e.uid ==> Holds(id, configs)
  }

  /** A cached router ID is the holder's, as it was resolved. */
  ghost predicate CacheHeld(log: seq<Event>, configs: map<ConfigId, Object>, routerIds: map<ConfigId, string>) {
    forall id :: id in routerIds ==> Holds(id, configs) && WasResolved(log, configs[id].uid, routerIds[id])
  }

  /** As long as it is not being deleted, a configuration whose router ID was resolved still has it cached. */
  ghost predicate ResolvedIsCached(log: seq<Event>, configs: map<ConfigId, Object>, routerIds: map<ConfigId, string>) {
    forall e, id :: e in log && e.Resolved? && id in configs && configs[id].uid == e.uid && !configs[id].deleting ==> id in routerIds
  }

  /** Each object ever created has its own number. */
  ghost predicate Numbered(log: seq<Event>, configs: map<ConfigId, Object>, next: nat) {
    && (forall e :: e in log ==> e.uid < next)
    && (forall a :: a in configs ==> configs[a].uid < next)
    && (forall a, b :: a in configs && b in configs && configs[a].uid == configs[b].uid ==> a == b)
  }

  ghost predicate CreatedBefore(configs: map<ConfigId, Object>, now: nat) {
    forall id :: id in configs ==> configs[id].created <= now
  }

  lemma OneOwner(a: ConfigId, b: ConfigId, configs: map<ConfigId, Object>)
    requires IsOwner(a, configs) && IsOwner(b, configs)
    ensures a == b
  {
    OwnerIsUnique(MetaOf(a, configs), MetaOf(b, configs), Metas(configs));
  }

  lemma MetasAreDistinct(configs: map<ConfigId, Object>)
    ensures Distinct(Metas(configs))
  {
  }

  /** Changing anything but creation times leaves the owner. */
  lemma SameOwner(id: ConfigId, configs: map<ConfigId, Object>, after: map<ConfigId, Object>)
    requires configs.Keys == after.Keys && forall k :: k in configs ==> configs[k].created == after[k].created
    ensures IsOwner(id, configs) <==> IsOwner(id, after)
  {
    assert Metas(configs) == Metas(after) by {
      forall k | k in configs ensures MetaOf(k, configs) == MetaOf(k, after) {
      }
      assert forall m :: m in Metas(configs) <==> m.id in configs && m == MetaOf(m.id, configs);
      assert forall m :: m in Metas(after) <==> m.id in after && m == MetaOf(m.id, after);
    }
  }

  /** A strictly later configuration does not take ownership. */
  lemma LaterDoesNotOwn(id: ConfigId, configs: map<ConfigId, Object>, added: ConfigId, o: Object)
    requires IsOwner(id, configs) && added !in configs && configs[id].created < o.created
    ensures IsOwner(id, configs[added := o])
  {
    var after := configs[added := o];
    forall c | c in Metas(after) && c != MetaOf(id, after) ensures Precedes(MetaOf(id, after), c) {
      if c.id != added {
        assert c in Metas(configs);
      }
    }
    assert MetaOf(id, after) in Metas(after);
  }

  /** Nor does removing others move it. */
  lemma RemovalKeepsOwner(id: ConfigId, configs: map<ConfigId, Object>, removed: ConfigId)
    requires IsOwner(id, configs) && removed != id
    ensures IsOwner(id, configs - {removed})
  {
    var left := configs - {removed};
    assert MetaOf(id, left) == MetaOf(id, configs);
    assert MetaOf(id, left) in Metas(left);
    forall c | c in Metas(left) && c != MetaOf(id, left) ensures Precedes(MetaOf(id, left), c) {
      assert c in Metas(configs);
    }
  }

  // ---- the invariant, and what keeps it ----

  ghost predicate Inv(log: seq<Event>, configs: map<ConfigId, Object>, routerIds: map<ConfigId, string>, next: nat, now: nat) {
    && Exclusive(log) && RightIdentity(log) && ResolvedOnce(log) && OnlyChecked(log)
    && WritesHeld(log, configs) && WritersHold(log, configs)
    && CacheHeld(log, configs, routerIds) && ResolvedIsCached(log, configs, routerIds)
    && Numbered(log, configs, next) && CreatedBefore(configs, now)
  }

  lemma Appended(log: seq<Event>, e: Event)
    ensures Unclean(log + [e]) ==
            if IsWrite(e) then Unclean(log) + {e.uid} else if e.CleanedUp? then Unclean(log) - {e.uid} else Unclean(log)
    ensures Exclusive(log + [e]) <==> Exclusive(log) && (IsWrite(e) ==> Unclean(log) <= {e.uid})
  {
    assert (log + [e])[..|log|] == log;
  }

  lemma AppendedIdentity(log: seq<Event>, e: Event)
    requires RightIdentity(log)
    requires e.Applied? ==> e.running.Some? && e.running.value.asn == e.spec.asn != 0 && WasResolved(log, e.uid, e.running.value.routerId)
    ensures RightIdentity(log + [e])
  {
    var longer := log + [e];
    forall i | 0 <= i < |longer| && longer[i].Applied?
      ensures longer[i].running.Some? && longer[i].running.value.asn == longer[i].spec.asn != 0
      ensures exists j :: 0 <= j < i && IsResolution(longer[j], longer[i].uid, longer[i].running.value.routerId)
    {
      if i < |log| {
        assert longer[i] == log[i];
        var j :| 0 <= j < i && IsResolution(log[j], log[i].uid, log[i].running.value.routerId);
        assert longer[j] == log[j];
      } else {
        var j :| 0 <= j < |log| && IsResolution(log[j], e.uid, e.running.value.routerId);
        assert longer[j] == log[j];
      }
    }
  }

  lemma ResolutionsStay(log: seq<Event>, e: Event)
    ensures forall uid, routerId :: WasResolved(log, uid, routerId) ==> WasResolved(log + [e], uid, routerId)
    ensures e.Resolved? ==> WasResolved(log + [e], e.uid, e.routerId)
  {
    var longer := log + [e];
    assert longer[|log|] == e;
    forall uid, routerId | WasResolved(log, uid, routerId) ensures WasResolved(longer, uid, routerId) {
      var j :| 0 <= j < |log| && IsResolution(log[j], uid, routerId);
      assert longer[j] == log[j];
    }
  }

  lemma OnlyHolderUnclean(id: ConfigId, log: seq<Event>, configs: map<ConfigId, Object>)
    requires WritesHeld(log, configs) && Holds(id, configs)
    ensures Unclean(log) <= {configs[id].uid}
  {
    forall u | u in Unclean(log) ensures u == configs[id].uid {
      var h :| Holds(h, configs) && configs[h].uid == u;
      OneOwner(h, id, configs);
    }
  }

  /** The holder may start, apply and clean. */
  lemma HolderWrites(id: ConfigId, e: Event, log: seq<Event>, configs: map<ConfigId, Object>, routerIds: map<ConfigId, string>,
                     next: nat, now: nat)
    requires Inv(log, configs, routerIds, next, now) && Holds(id, configs) && IsWrite(e) && e.uid == configs[id].uid
    requires e.Applied? ==> id in routerIds && e.spec.asn != 0 && e.running == Some(Speaker(e.spec.asn, routerIds[id]))
    requires e.Applied? || e.Started? ==> e.spec.valid && e.spec.globalValid
    ensures Inv(log + [e], configs, routerIds, next, now)
  {
    hide Exclusive, Unclean, RightIdentity, IsOwner;
    OnlyHolderUnclean(id, log, configs);
    Appended(log, e);
    AppendedIdentity(log, e);
    ResolutionsStay(log, e);
    hide WasResolved;
    assert ResolvedOnce(log + [e]);
    assert WritesHeld(log + [e], configs);
    assert Numbered(log + [e], configs, next);
    assert CacheHeld(log + [e], configs, routerIds);
  }

  /** The holder resolves its router ID when it has none cached. */
  lemma HolderResolves(id: ConfigId, routerId: string, log: seq<Event>, configs: map<ConfigId, Object>,
                       routerIds: map<ConfigId, string>, next: nat, now: nat)
    requires Inv(log, configs, routerIds, next, now) && Holds(id, configs) && !configs[id].deleting && id !in routerIds
    requires configs[id].spec.valid
    ensures Inv(log + [Resolved(configs[id].uid, routerId, configs[id].spec)], configs, routerIds[id := routerId], next, now)
  {
    hide Exclusive, Unclean, RightIdentity, IsOwner;
    var e := Resolved(configs[id].uid, routerId, configs[id].spec);
    Appended(log, e);
    AppendedIdentity(log, e);
    ResolutionsStay(log, e);
    hide WasResolved;
    var longer := log + [e];
    assert longer[|log|] == e;
    assert forall old' :: old' in log && old'.Resolved? ==> old'.uid != e.uid;
    assert ResolvedOnce(longer);
    assert WritesHeld(longer, configs);
  }

  /** A cleanup without errors leaves nothing unclean, and then the router ID may be forgotten. */
  lemma HolderCleanedUp(id: ConfigId, log: seq<Event>, configs: map<ConfigId, Object>, routerIds: map<ConfigId, string>,
                        next: nat, now: nat)
    requires Inv(log, configs, routerIds, next, now) && Holds(id, configs) && configs[id].deleting
    ensures Inv(log + [CleanedUp(configs[id].uid)], configs, routerIds, next, now)
    ensures Inv(log + [CleanedUp(configs[id].uid)], configs, routerIds - {id}, next, now)
    ensures configs[id].uid !in Unclean(log + [CleanedUp(configs[id].uid)])
  {
    hide Exclusive, Unclean, RightIdentity, IsOwner;
    var e := CleanedUp(configs[id].uid);
    OnlyHolderUnclean(id, log, configs);
    Appended(log, e);
    AppendedIdentity(log, e);
    ResolutionsStay(log, e);
    hide WasResolved;
  }

  /** Edits of a spec, requests to delete, and new finalizers. */
  lemma Changed(log: seq<Event>, configs: map<ConfigId, Object>, after: map<ConfigId, Object>, routerIds: map<ConfigId, string>,
                next: nat, now: nat)
    requires Inv(log, configs, routerIds, next, now) && configs.Keys == after.Keys
    requires forall k :: k in configs ==>
      && after[k].created == configs[k].created && after[k].uid == configs[k].uid
      && (configs[k].finalizer ==> after[k].finalizer) && (configs[k].deleting ==> after[k].deleting)
    ensures Inv(log, after, routerIds, next, now)
  {
    hide Exclusive, Unclean, RightIdentity, IsOwner, ResolvedOnce;
    forall k ensures IsOwner(k, configs) <==> IsOwner(k, after) {
      SameOwner(k, configs, after);
    }
    assert forall k :: k in configs && Holds(k, configs) ==> Holds(k, after);
    assert WritesHeld(log, after) by {
      forall u | u in Unclean(log) ensures exists k :: Holds(k, after) && after[k].uid == u {
        var k :| Holds(k, configs) && configs[k].uid == u;
        assert k in configs by { OwnerIsPresent(k, configs); }
        assert Holds(k, after);
      }
    }
    assert forall k :: k in routerIds ==> k in configs;
  }

  lemma OwnerIsPresent(id: ConfigId, configs: map<ConfigId, Object>)
    requires IsOwner(id, configs)
    ensures id in configs
  {
  }

  /** A configuration with nothing unclean and nothing cached may go. */
  lemma Removed(id: ConfigId, log: seq<Event>, configs: map<ConfigId, Object>, routerIds: map<ConfigId, string>, next: nat, now: nat)
    requires Inv(log, configs, routerIds, next, now)
    requires id in configs && configs[id].uid !in Unclean(log) && id !in routerIds
    ensures Inv(log, configs - {id}, routerIds, next, now)
  {
    hide Exclusive, Unclean, RightIdentity, IsOwner, ResolvedOnce;
    var left := configs - {id};
    forall k | k != id && Holds(k, configs) ensures Holds(k, left) {
      RemovalKeepsOwner(k, configs, id);
      OwnerIsPresent(k, configs);
    }
    assert WritesHeld(log, left) by {
      forall u | u in Unclean(log) ensures exists k :: Holds(k, left) && left[k].uid == u {
        var k :| Holds(k, configs) && configs[k].uid == u;
        OwnerIsPresent(k, configs);
        assert k != id && Holds(k, left);
      }
    }
    assert CacheHeld(log, left, routerIds);
  }

  /** Whoever does not hold has nothing unclean and nothing cached. */
  lemma OthersHaveNothing(id: ConfigId, log: seq<Event>, configs: map<ConfigId, Object>, routerIds: map<ConfigId, string>,
                          next: nat, now: nat)
    requires Inv(log, configs, routerIds, next, now) && id in configs && !Holds(id, configs)
    ensures configs[id].uid !in Unclean(log) && id !in routerIds
  {
    hide Exclusive, Unclean, RightIdentity, IsOwner, ResolvedOnce;
    assert forall k :: Holds(k, configs) ==> configs[k].uid != configs[id].uid;
  }

  lemma Created(id: ConfigId, o: Object, log: seq<Event>, configs: map<ConfigId, Object>, routerIds: map<ConfigId, string>,
                next: nat, now: nat)
    requires Inv(log, configs, routerIds, next, now) && id !in configs && o.uid == next && o.created > now
    ensures Inv(log, configs[id := o], routerIds, next + 1, o.created)
  {
    hide Exclusive, Unclean, RightIdentity, IsOwner, ResolvedOnce;
    var after := configs[id := o];
    forall k | Holds(k, configs) ensures k in configs && Holds(k, after) {
      OwnerIsPresent(k, configs);
      LaterDoesNotOwn(k, configs, id, o);
    }
    assert WritesHeld(log, after) by {
      forall u | u in Unclean(log) ensures exists k :: Holds(k, after) && after[k].uid == u {
        var k :| Holds(k, configs) && configs[k].uid == u;
        assert k != id && Holds(k, after);
      }
    }
    assert CacheHeld(log, after, routerIds);
    assert Numbered(log, after, next + 1);
  }

  // ---- the agent ----

  class Agent {
    /** The API server's objects, the agent's router ID cache, and the daemon's speaker. */
    var configs: map<ConfigId, Object>
    var routerIds: map<ConfigId, string>
    var speaker: Option<Speaker>
    /** While true, every call succeeds unless its own rules, or a cleanup, stand against it. */
    var healthy: bool
    /** Whether the daemon has been dialed in this reconcile. */
    var connected: bool
    var next: nat
    var now: nat
    ghost var log: seq<Event>

    ghost predicate Valid()
      reads this
    {
      Inv(log, configs, routerIds, next, now) && (speaker.Some? ==> speaker.value.asn != 0)
    }

    /** Everything recorded since the log was before concerns one configuration. */
    ghost predicate Only(uid: nat, before: seq<Event>)
      reads this
    {
      before <= log && forall i :: |before| <= i < |log| ==> log[i].uid == uid
    }

    /** A fresh agent and daemon; the cluster may already hold configurations, finalizers included. */
    constructor (configs: map<ConfigId, Object>, next: nat, now: nat)
      requires Numbered([], configs, next) && CreatedBefore(configs, now)
      ensures Valid() && log == [] && this.configs == configs && routerIds == map[] && speaker == None
    {
      this.configs, this.next, this.now := configs, next, now;
      routerIds, speaker, healthy, connected, log := map[], None, true, false, [];
    }

    // -- the users --

    method Create(id: ConfigId, spec: Spec, elapsed: nat)
      requires Valid()
      modifies this
      ensures Valid() && log == old(log) && routerIds == old(routerIds) && speaker == old(speaker)
      ensures forall k :: old(IsOwner(k, configs)) ==> IsOwner(k, configs)
      ensures if id in old(configs) then configs == old(configs)
              else configs == old(configs)[id := Object(old(next), old(now) + 1 + elapsed, spec, false, false)]
    {
      if id in configs {
        return;
      }
      var o := Object(next, now + 1 + elapsed, spec, false, false);
      Created(id, o, log, configs, routerIds, next, now);
      forall k | IsOwner(k, configs) ensures IsOwner(k, configs[id := o]) {
        LaterDoesNotOwn(k, configs, id, o);
      }
      hide Inv, IsOwner;
      configs, next, now := configs[id := o], next + 1, o.created;
    }

    method Edit(id: ConfigId, spec: Spec)
      requires Valid()
      modifies this
      ensures Valid() && log == old(log) && routerIds == old(routerIds) && speaker == old(speaker)
      ensures configs == if id in old(configs) then old(configs)[id := old(configs)[id].(spec := spec)] else old(configs)
    {
      if id in configs {
        ghost var after := configs[id := configs[id].(spec := spec)];
        Changed(log, configs, after, routerIds, next, now);
        hide Inv;
        configs := configs[id := configs[id].(spec := spec)];
      }
    }

    /** Without a finalizer the object goes at once. */
    method RequestDelete(id: ConfigId)
      requires Valid()
      modifies this
      ensures Valid() && log == old(log) && routerIds == old(routerIds) && speaker == old(speaker)
      ensures configs == if id in old(configs) && old(configs)[id].finalizer
                         then old(configs)[id := old(configs)[id].(deleting := true)] else old(configs) - {id}
    {
      if id !in configs {
        return;
      }
      if configs[id].finalizer {
        Changed(log, configs, configs[id := configs[id].(deleting := true)], routerIds, next, now);
        hide Inv;
        configs := configs[id := configs[id].(deleting := true)];
      } else {
        OthersHaveNothing(id, log, configs, routerIds, next, now);
        Removed(id, log, configs, routerIds, next, now);
        hide Inv;
        configs := configs - {id};
      }
    }

    // -- the controller --

    method Dial()
      modifies this`connected
      ensures healthy ==> connected
    {
      connected := Answered();
    }

    /** Whether a call that has no rules of its own is answered. */
    method Answered() returns (ok: bool)
      ensures healthy ==> ok
    {
      var fault: bool := *;
      ok := healthy || !fault;
    }

    /** The list of all configurations, in any order. */
    method ListConfigs() returns (list: seq<Config>)
      ensures (set c | c in list) == Metas(configs)
    {
      list := [];
      var todo := configs.Keys;
      while todo != {}
        invariant todo <= configs.Keys
        invariant forall c :: c in list <==> c.id in configs && c.id !in todo && c == MetaOf(c.id, configs)
      {
        var id :| id in todo;
        todo := todo - {id};
        list := list + [MetaOf(id, configs)];
      }
    }

    /** Whether this configuration is the one allowed to write on this node. */
    method IsOwned(id: ConfigId) returns (owned: bool)
      requires id in configs
      ensures owned <==> IsOwner(id, configs)
    {
      var list := ListConfigs();
      MetasAreDistinct(configs);
      var owner := ElectOwningConfig(list);
      owned := owner.None? || owner.value.id == id;
      assert MetaOf(id, configs) in Metas(configs);
      assert MetaOf(id, configs) in list;
      if owned {
        assert owner.value in Metas(configs);
      } else if IsOwner(id, configs) {
        OwnerIsUnique(owner.value, MetaOf(id, configs), Metas(configs));
      }
    }

    /** resolveEffectiveRouterID: whatever the spec, the node or the pool would give now, a cached ID stays. */
    method ResolveEffectiveRouterID(id: ConfigId) returns (ok: bool, routerId: string)
      requires Valid() && Holds(id, configs) && !configs[id].deleting && configs[id].spec.valid && connected
      modifies this`routerIds, this`log
      ensures Valid() && Only(configs[id].uid, old(log))
      ensures ok ==> id in routerIds && routerIds[id] == routerId
      ensures id in old(routerIds) ==> ok && routerIds == old(routerIds) && log == old(log)
      ensures healthy ==> ok
    {
      hide Inv, IsOwner;
      if id in routerIds {
        return true, routerIds[id];
      }
      ok := Answered();
      routerId := *;
      if ok {
        HolderResolves(id, routerId, log, configs, routerIds, next, now);
        routerIds := routerIds[id := routerId];
        log := log + [Resolved(configs[id].uid, routerId, configs[id].spec)];
      }
    }

    /** StartBgp is refused when a speaker is running, or without an AS number; its reply may be lost. */
    method StartBgp(id: ConfigId, routerId: string) returns (ok: bool)
      requires Valid() && Holds(id, configs) && configs[id].spec.valid && configs[id].spec.globalValid && connected
      modifies this`speaker, this`log
      ensures Valid() && Only(configs[id].uid, old(log))
      ensures ok ==> speaker == Some(Speaker(configs[id].spec.asn, routerId)) && configs[id].spec.asn != 0
      ensures speaker == old(speaker)
              || (old(speaker).None? && configs[id].spec.asn != 0 && speaker == Some(Speaker(configs[id].spec.asn, routerId)))
      ensures healthy ==> (ok <==> old(speaker).None? && configs[id].spec.asn != 0)
    {
      HolderWrites(id, Started(configs[id].uid, configs[id].spec), log, configs, routerIds, next, now);
      hide Inv;
      log := log + [Started(configs[id].uid, configs[id].spec)];
      var arrived := Answered();
      var answered := Answered();
      ok := speaker.None? && configs[id].spec.asn != 0 && arrived;
      if ok {
        speaker := Some(Speaker(configs[id].spec.asn, routerId));
      }
      ok := ok && answered;
    }

    /** reconcileGlobal. A failing GetBgp and one that reports no AS number both lead to StartBgp. */
    method ReconcileGlobal(id: ConfigId) returns (ok: bool)
      requires Valid() && Holds(id, configs) && !configs[id].deleting && configs[id].spec.valid && connected
      modifies this`routerIds, this`speaker, this`log
      ensures Valid() && Only(configs[id].uid, old(log))
      ensures ok ==>
        && id in routerIds && configs[id].spec.globalValid && configs[id].spec.asn != 0
        && speaker == Some(Speaker(configs[id].spec.asn, routerIds[id]))
      ensures healthy ==>
        && id in routerIds
        && (ok <==> configs[id].spec.globalValid && configs[id].spec.asn != 0
                    && (old(speaker).None? || old(speaker) == Some(Speaker(configs[id].spec.asn, routerIds[id]))))
    {
      hide Inv;
      var routerId;
      ok, routerId := ResolveEffectiveRouterID(id);
      if !ok {
        return;
      }
      if !configs[id].spec.globalValid {
        return false;
      }
      var answered := Answered();
      if !answered || speaker.None? {
        ok := StartBgp(id, routerId);
        return;
      }
      ok := speaker.value.asn == configs[id].spec.asn && speaker.value.routerId == routerId;
    }

    /** The chain after the global part; the first phase to fail ends it. */
    method ApplyPhases(id: ConfigId) returns (ok: bool)
      requires Valid() && Holds(id, configs) && id in routerIds && connected
      requires configs[id].spec.valid && configs[id].spec.globalValid && configs[id].spec.asn != 0
      requires speaker == Some(Speaker(configs[id].spec.asn, routerIds[id]))
      modifies this`log
      ensures Valid() && Only(configs[id].uid, old(log))
      ensures healthy ==> ok
      ensures ok ==> log == old(log) + Programme(configs[id].uid, speaker, configs[id].spec, |PHASES|)
    {
      hide Inv;
      for i := 0 to |PHASES|
        invariant Valid() && log == old(log) + Programme(configs[id].uid, speaker, configs[id].spec, i)
      {
        ghost var e := Applied(configs[id].uid, PHASES[i], speaker, configs[id].spec);
        HolderWrites(id, e, log, configs, routerIds, next, now);
        log := log + [e];
        ok := Answered();
        if !ok {
          return;
        }
      }
      ok := true;
    }

    /** The cleanup itself: how many errors it records is its own business, but it has ended well only with none. */
    method CleanUp(id: ConfigId) returns (errors: nat)
      requires Valid() && Holds(id, configs) && configs[id].deleting && connected
      modifies this`log
      ensures Valid()
      ensures log == old(log) + if errors == 0 then [Cleaning(configs[id].uid), CleanedUp(configs[id].uid)] else [Cleaning(configs[id].uid)]
      ensures errors == 0 ==> configs[id].uid !in Unclean(log) && Inv(log, configs, routerIds - {id}, next, now)
    {
      hide Inv, IsOwner, Unclean;
      errors := *;
      HolderWrites(id, Cleaning(configs[id].uid), log, configs, routerIds, next, now);
      log := log + [Cleaning(configs[id].uid)];
      if errors == 0 {
        HolderCleanedUp(id, log, configs, routerIds, next, now);
        log := log + [CleanedUp(configs[id].uid)];
      }
    }

    /** reconcileDelete. Only a cleanup without errors drops the router ID and then the finalizer, and with it
        the object; if that update fails, the next attempt cleans up again. */
    method ReconcileDelete(id: ConfigId)
      requires Valid() && id in configs && IsOwner(id, configs) && configs[id].deleting
      modifies this`configs, this`routerIds, this`log, this`connected
      ensures !connected && old(configs[id].finalizer) ==> log == old(log) && configs == old(configs)
      ensures Valid() && Only(old(configs[id].uid), old(log)) && speaker == old(speaker)
      ensures id !in configs ==> old(configs[id].uid) !in Unclean(log)
      ensures configs == old(configs) || (configs == old(configs) - {id} && routerIds == old(routerIds) - {id})
      ensures old(configs[id].finalizer) && id !in configs ==>
        log == old(log) + [Cleaning(old(configs[id].uid)), CleanedUp(old(configs[id].uid))]
      ensures healthy && id in configs && old(configs[id].finalizer) ==> log == old(log) + [Cleaning(old(configs[id].uid))]
    {
      hide Inv, IsOwner, Unclean;
      if !configs[id].finalizer {
        return;
      }
      Dial();
      if !connected {
        return;
      }
      var errors := CleanUp(id);
      if errors > 0 {
        return;
      }
      routerIds := routerIds - {id};
      var updated := Answered();
      if updated {
        Removed(id, log, configs, routerIds, next, now);
        configs := configs - {id};
      }
    }

    /** deleteIgnoredConfig: lets go without touching the daemon. */
    method DeleteIgnoredConfig(id: ConfigId)
      requires Valid() && id in configs && !IsOwner(id, configs) && configs[id].deleting
      modifies this`configs
      ensures Valid()
      ensures configs == old(configs) || configs == old(configs) - {id}
      ensures healthy && old(configs[id].finalizer) ==> id !in configs
    {
      if !configs[id].finalizer {
        return;
      }
      var updated := Answered();
      if updated {
        OthersHaveNothing(id, log, configs, routerIds, next, now);
        Removed(id, log, configs, routerIds, next, now);
        hide Inv;
        configs := configs - {id};
      }
    }

    method AddFinalizer(id: ConfigId)
      requires Valid() && id in configs
      modifies this`configs
      ensures Valid()
      ensures configs == old(configs) || configs == old(configs)[id := old(configs)[id].(finalizer := true)]
      ensures healthy ==> configs[id].finalizer
    {
      var updated := Answered();
      if updated {
        Changed(log, configs, configs[id := configs[id].(finalizer := true)], routerIds, next, now);
        hide Inv;
        configs := configs[id := configs[id].(finalizer := true)];
      }
    }

    /** Reconcile. Nothing is recorded for, or done to the daemon by, anyone but the owner. Without failures an
        owner first gets its finalizer and nothing else, and then, if the daemon accepts its identity, all of
        its phases in order. */
    method Reconcile(id: ConfigId)
      requires Valid()
      modifies this`configs, this`routerIds, this`speaker, this`log, this`connected
      ensures old(id in configs && !configs[id].deleting && !configs[id].spec.valid && configs[id].finalizer) ==>
        log == old(log) && speaker == old(speaker) && routerIds == old(routerIds) && configs == old(configs)
      ensures Valid() && old(log) <= log
      ensures id in old(configs) ==> Only(old(configs)[id].uid, old(log))
      ensures !old(IsOwner(id, configs)) ==> log == old(log) && routerIds == old(routerIds) && speaker == old(speaker)
      ensures forall k :: k in old(configs) && k != id ==> k in configs && configs[k] == old(configs)[k]
      ensures id in old(configs) && !old(IsOwner(id, configs)) ==>
        configs == old(configs) || (old(configs)[id].deleting && configs == old(configs) - {id})
      ensures healthy && id in old(configs) && !old(IsOwner(id, configs)) && old(configs)[id].deleting && old(configs)[id].finalizer ==>
        configs == old(configs) - {id}
      ensures old(IsOwner(id, configs)) && id !in configs && old(configs[id].finalizer) ==>
        && old(configs[id].deleting) && configs == old(configs) - {id}
        && log == old(log) + [Cleaning(old(configs[id].uid)), CleanedUp(old(configs[id].uid))]
      ensures healthy && old(IsOwner(id, configs)) && old(configs[id].deleting) && old(configs[id].finalizer) && id in configs ==>
        log == old(log) + [Cleaning(old(configs[id].uid))] && configs == old(configs)
      ensures healthy && old(IsOwner(id, configs)) && !old(configs[id].deleting) && !old(configs[id].finalizer) ==>
        log == old(log) && speaker == old(speaker) && configs == old(configs)[id := old(configs)[id].(finalizer := true)]
      ensures healthy && old(IsOwner(id, configs)) && !old(configs[id].deleting) && old(configs[id].finalizer) ==>
        var o := old(configs)[id];
        && configs == old(configs)
        && (o.spec.valid ==> id in routerIds)
        && (o.spec.valid && o.spec.globalValid && o.spec.asn != 0
            && (old(speaker).None? || old(speaker) == Some(Speaker(o.spec.asn, routerIds[id]))) ==>
            var running := Some(Speaker(o.spec.asn, routerIds[id]));
            EndsWith(log, [Applied(o.uid, DefinedSets, running, o.spec), Applied(o.uid, Policies, running, o.spec),
                           Applied(o.uid, Vrfs, running, o.spec), Applied(o.uid, PeerGroups, running, o.spec),
                           Applied(o.uid, DynamicNeighbors, running, o.spec), Applied(o.uid, Neighbors, running, o.spec),
                           Applied(o.uid, Netlink, running, o.spec)]))
    {
      hide Inv, IsOwner, Unclean;
      if id !in configs {
        OwnerPresence(id, configs);
        return;
      }
      var listed := Answered();
      if !listed {
        return;
      }
      var owned := IsOwned(id);
      if configs[id].deleting {
        if owned {
          ReconcileDelete(id);
        } else {
          DeleteIgnoredConfig(id);
        }
        return;
      }
      if !owned {
        return;
      }
      if !configs[id].finalizer {
        AddFinalizer(id);
        return;
      }
      if !configs[id].spec.valid {
        return;
      }
      Dial();
      if !connected {
        return;
      }
      ghost var before, uid := log, configs[id].uid;
      var ok := ReconcileGlobal(id);
      if ok {
        ghost var middle := log;
        ok := ApplyPhases(id);
        ProgrammeIs(uid, speaker, configs[id].spec);
        assert before <= middle <= log;
      }
    }

    lemma OwnerPresence(id: ConfigId, configs: map<ConfigId, Object>)
      requires id !in configs
      ensures !IsOwner(id, configs)
    {
    }

    /** Every write for a configuration that is not the present owner has been followed by an error-free cleanup. */
    lemma OwnershipMovesAfterCleanup(log: seq<Event>, configs: map<ConfigId, Object>)
      requires WritesHeld(log, configs)
      ensures ReleasedAfterCleanup(log, configs)
    {
      hide Unclean, Owns;
      assert log[..|log|] == log;
      forall i | 0 <= i < |log| && IsWrite(log[i]) && (forall id :: IsOwner(id, configs) ==> configs[id].uid != log[i].uid)
        ensures CleanedUpAfter(log, i) {
        UncleanUntilCleanedUp(log, i, |log|);
        assert forall id :: Holds(id, configs) ==> IsOwner(id, configs);
      }
    }

    /** Any run: creations with strictly later timestamps, edits, requests to delete and reconciles, in any
        order, with any failures. */
    method Run(steps: seq<Step>)
      requires Valid()
      modifies this
      ensures Valid() && old(log) <= log
      ensures forall u :: u in Unclean(log) ==> exists id :: Holds(id, configs) && configs[id].uid == u
      ensures WritersHold(log, configs)
      ensures ReleasedAfterCleanup(log, configs)
      ensures Exclusive(log) && RightIdentity(log) && ResolvedOnce(log) && OnlyChecked(log)
    {
      hide Inv, Unclean, IsOwner, Exclusive, RightIdentity, ResolvedOnce, OnlyChecked;
      for i := 0 to |steps|
        invariant Valid() && old(log) <= log
      {
        match steps[i] {
          case Creation(id, spec, elapsed) => Create(id, spec, elapsed);
          case Editing(id, spec) => Edit(id, spec);
          case Deletion(id) => RequestDelete(id);
          case Reconciliation(id) => Reconcile(id);
        }
      }
      InvMeans(log, configs, routerIds, next, now);
      OwnershipMovesAfterCleanup(log, configs);
    }

    lemma InvMeans(log: seq<Event>, configs: map<ConfigId, Object>, routerIds: map<ConfigId, string>, next: nat, now: nat)
      requires Inv(log, configs, routerIds, next, now)
      ensures forall u :: u in Unclean(log) ==> exists id :: Holds(id, configs) && configs[id].uid == u
      ensures WritersHold(log, configs)
      ensures Exclusive(log) && RightIdentity(log) && ResolvedOnce(log) && OnlyChecked(log)
    {
      hide Exclusive, RightIdentity, Unclean, IsOwner, ResolvedOnce, OnlyChecked;
      forall u | u in Unclean(log) ensures exists id :: Holds(id, configs) && configs[id].uid == u {
        var id :| Holds(id, configs) && configs[id].uid == u;
      }
    }
  }

  datatype Step =
    | Creation(id: ConfigId, spec: Spec, elapsed: nat) | Editing(id: ConfigId, spec: Spec)
    | Deletion(id: ConfigId) | Reconciliation(id: ConfigId)
}
