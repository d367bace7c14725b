/** The cleanup that runs before a deleted configuration is let go: reconcileDelete. */
module Cleanup {
  import opened Messages
  import opened Converters
  import opened Daemon

  /** The parts of a spec that cleanup walks, by name. */
  datatype CleanupSpec = CleanupSpec(neighbors: seq<Neighbor>, dynamicPrefixes: seq<string>, groups: seq<string>,
                                     vrfs: seq<string>, policies: seq<string>, definedSets: seq<string>,
                                     netlinkExport: bool, netlinkImport: bool)

  /** What the daemon holds besides peers and groups. */
  datatype Object = DynamicNeighbor(prefix: string) | Vrf(name: string) | Policy(name: string) | DefinedSet(name: string)

  predicate Names(spec: CleanupSpec, o: Object) {
    match o
    case DynamicNeighbor(p) => p in spec.dynamicPrefixes
    case Vrf(n) => n in spec.vrfs
    case Policy(n) => n in spec.policies
    case DefinedSet(n) => n in spec.definedSets
  }

  /** How one pass went: errors are those that were recorded; whether netlink was disabled is known, but not
      counted. */
  datatype CleanupReport = Undialed | Ran(errors: nat, updated: bool, exportDisabled: bool, importDisabled: bool)

  function KeysOf(neighbors: seq<Neighbor>): (r: seq<string>)
    ensures |r| == |neighbors|
  {
    seq(|neighbors|, i requires 0 <= i < |neighbors| => KeyFromConfig(neighbors[i].config))
  }

  /** How many entries name a peer that is present but that an earlier entry names too. */
  function Repeats(keys: seq<string>, present: set<string>): nat {
    if keys == [] then 0
    else
      var n := |keys| - 1;
      Repeats(keys[..n], present) + if keys[n] in present && keys[n] in keys[..n] then 1 else 0
  }

  /** A pass without failures deletes every named peer, so the next one has nothing to repeat. */
  lemma {:induction false} NothingLeftToRepeat(keys: seq<string>, present: set<string>)
    requires forall k :: k in keys ==> k !in present
    ensures Repeats(keys, present) == 0
  {
    if keys != [] {
      NothingLeftToRepeat(keys[..|keys| - 1], present);
    }
  }

  /** The first pass reports no error exactly when no present peer is named twice. */
  lemma {:induction false} NoRepeatsIff(keys: seq<string>, present: set<string>)
    ensures Repeats(keys, present) == 0 <==>
            forall i, j :: 0 <= i < j < |keys| && keys[i] == keys[j] ==> keys[i] !in present
  {
    if keys != [] {
      var n := |keys| - 1;
      NoRepeatsIff(keys[..n], present);
      if keys[n] in present && keys[n] in keys[..n] {
        var i :| 0 <= i < n && keys[..n][i] == keys[n];
        assert keys[i] == keys[n];
      }
    }
  }

  /** How many of the named groups a daemon without failures refuses to delete. */
  function Refusals(names: seq<string>, groups: set<string>, peers: map<string, Peer>, strict: bool): nat {
    if names == [] then 0
    else
      var n := |names| - 1;
      Refusals(names[..n], groups, peers, strict) +
      if HasMembers(names[n], peers) || (strict && (names[n] !in groups || names[n] in names[..n])) then 1 else 0
  }

  /** Groups can be cleaned up in one go exactly when each is memberless and, for a strict daemon, present
      and named once. */
  lemma {:induction false} NoRefusalsIff(names: seq<string>, groups: set<string>, peers: map<string, Peer>, strict: bool)
    ensures Refusals(names, groups, peers, strict) == 0 <==>
            && (forall i :: 0 <= i < |names| ==> !HasMembers(names[i], peers) && (strict ==> names[i] in groups))
            && (strict ==> forall i, j :: 0 <= i < j < |names| ==> names[i] != names[j])
  {
    hide HasMembers;
    if names != [] {
      var n := |names| - 1;
      NoRefusalsIff(names[..n], groups, peers, strict);
      assert forall i :: 0 <= i < n ==> names[..n][i] == names[i];
    }
  }

  /** The peers that no entry names. */
  function Unnamed(peers: map<string, Peer>, keys: seq<string>): map<string, Peer> {
    map k | k in peers && k !in keys :: peers[k]
  }

  /** A first pass without failures reports no error. */
  predicate CleanAtOnce(spec: CleanupSpec, peers: map<string, Peer>, groups: set<string>, strict: bool) {
    var keys := KeysOf(spec.neighbors);
    Repeats(keys, peers.Keys) == 0 && Refusals(spec.groups, groups, Unnamed(peers, keys), strict) == 0
  }

  /** When a configuration is released by retries without failures. A daemon that refuses to delete an unknown
      group gives the first pass its only chance. */
  predicate Cleanable(spec: CleanupSpec, peers: map<string, Peer>, groups: set<string>, strict: bool) {
    if strict && spec.groups != [] then CleanAtOnce(spec, peers, groups, strict)
    else forall i :: 0 <= i < |spec.groups| ==> !HasMembers(spec.groups[i], Unnamed(peers, KeysOf(spec.neighbors)))
  }

  /** The first pass has that chance exactly when no present peer is named twice, no named group has a member
      that is not named too and, for a strict daemon, each named group is there and named once. */
  lemma CleanAtOnceIff(spec: CleanupSpec, peers: map<string, Peer>, groups: set<string>, strict: bool)
    ensures CleanAtOnce(spec, peers, groups, strict) <==>
            && (forall i, j :: 0 <= i < j < |spec.neighbors| && KeysOf(spec.neighbors)[i] == KeysOf(spec.neighbors)[j] ==>
                 KeysOf(spec.neighbors)[i] !in peers)
            && (forall i :: 0 <= i < |spec.groups| ==>
                 !HasMembers(spec.groups[i], Unnamed(peers, KeysOf(spec.neighbors))) && (strict ==> spec.groups[i] in groups))
            && (strict ==> forall i, j :: 0 <= i < j < |spec.groups| ==> spec.groups[i] != spec.groups[j])
  {
    NoRepeatsIff(KeysOf(spec.neighbors), peers.Keys);
    NoRefusalsIff(spec.groups, groups, Unnamed(peers, KeysOf(spec.neighbors)), strict);
  }

  /** A second pass, over what the first one left, is clean under the same condition as all later ones. */
  lemma RetriesAreAlike(spec: CleanupSpec, left: map<string, Peer>, groups: set<string>, strict: bool)
    requires forall k :: k in KeysOf(spec.neighbors) ==> k !in left
    requires forall n :: n in spec.groups && n in groups ==> HasMembers(n, left)
    ensures Repeats(KeysOf(spec.neighbors), left.Keys) == 0
    ensures Refusals(spec.groups, groups, left, strict) == 0 <==>
            !(strict && spec.groups != []) && forall i :: 0 <= i < |spec.groups| ==> !HasMembers(spec.groups[i], left)
  {
    hide HasMembers, KeysOf;
    NothingLeftToRepeat(KeysOf(spec.neighbors), left.Keys);
    NoRefusalsIff(spec.groups, groups, left, strict);
    if strict && spec.groups != [] {
      assert spec.groups[0] in spec.groups;
    }
  }

  /** A clean first pass is a release by retries. */
  lemma CleanAtOnceIsCleanable(spec: CleanupSpec, peers: map<string, Peer>, groups: set<string>, strict: bool)
    requires CleanAtOnce(spec, peers, groups, strict)
    ensures Cleanable(spec, peers, groups, strict)
  {
    hide HasMembers;
    NoRefusalsIff(spec.groups, groups, Unnamed(peers, KeysOf(spec.neighbors)), strict);
  }

  /** A strict daemon, one group, and a present neighbor named twice: the first pass deletes the group and fails
      on the second delete of the neighbor, and from then on the missing group fails every pass. */
  lemma RepeatedNeighborIsNeverReleased(spec: CleanupSpec, n: Neighbor, g: string, peers: map<string, Peer>, groups: set<string>)
    requires spec.neighbors == [n, n] && spec.groups == [g] && KeyFromConfig(n.config) in peers
    ensures !Cleanable(spec, peers, groups, true)
  {
    var keys := KeysOf(spec.neighbors);
    NoRepeatsIff(keys, peers.Keys);
    assert keys[0] == keys[1] == KeyFromConfig(n.config);
  }

  /** The daemon's other tables, and what else a cleanup calls. */
  class Node {
    const gobgpd: Gobgpd
    /** While true, deletes of other objects, dialing and the update of the configuration succeed. Otherwise
        they may fail for any reason. */
    var obliging: bool
    /** Whether the daemon has been dialed in this cleanup. */
    var connected: bool
    var objects: set<Object>
    var exporting: bool
    var importing: bool

    constructor (gobgpd: Gobgpd)
      ensures this.gobgpd == gobgpd && objects == {} && !exporting && !importing
    {
      this.gobgpd := gobgpd;
      obliging, connected, objects, exporting, importing := true, false, {}, false, false;
    }

    /** Nothing fails but by the daemon's rules for peers and groups. */
    predicate Faultless()
      reads this`obliging, gobgpd`healthy
    {
      obliging && gobgpd.healthy
    }

    /** Whether a call without rules of its own succeeds. */
    method Succeeds() returns (ok: bool)
      ensures obliging ==> ok
    {
      var fault: bool := *;
      ok := obliging || !fault;
    }

    method Dial()
      modifies this`connected
      ensures obliging ==> connected
    {
      connected := Succeeds();
    }

    method DeleteObject(o: Object) returns (ok: bool)
      requires connected
      modifies this`objects
      ensures obliging ==> ok
      ensures objects == old(objects) - {o} || (!ok && objects == old(objects))
    {
      ok := Succeeds();
      var arrived: bool := *;
      if ok || arrived {
        objects := objects - {o};
      }
    }

    /** Disabling what is not enabled is an error. */
    method DisableNetlinkExport() returns (ok: bool)
      requires connected
      modifies this`exporting
      ensures ok ==> old(exporting) && !exporting
      ensures exporting ==> old(exporting)
      ensures obliging ==> (ok <==> old(exporting)) && !exporting
    {
      var arrived := Succeeds();
      var answered := Succeeds();
      ok := exporting && arrived && answered;
      exporting := exporting && !arrived;
    }

    method DisableNetlinkImport() returns (ok: bool)
      requires connected
      modifies this`importing
      ensures ok ==> old(importing) && !importing
      ensures importing ==> old(importing)
      ensures obliging ==> (ok <==> old(importing)) && !importing
    {
      var arrived := Succeeds();
      var answered := Succeeds();
      ok := importing && arrived && answered;
      importing := importing && !arrived;
    }

    /** Nothing the spec names is left. */
    ghost predicate Clean(spec: CleanupSpec)
      reads this, gobgpd
    {
      && (forall k :: k in KeysOf(spec.neighbors) ==> k !in gobgpd.peers)
      && (forall n :: n in spec.groups ==> n !in gobgpd.groups)
      && (forall o :: o in objects ==> !Names(spec, o))
    }

    /** The netlink export and import that the spec asked for are off. */
    ghost predicate NetlinkOff(spec: CleanupSpec)
      reads this
    {
      (spec.netlinkExport ==> !exporting) && (spec.netlinkImport ==> !importing)
    }

    /** And what it did not ask for is as it was. */
    ghost predicate NetlinkKept(spec: CleanupSpec, exported: bool, imported: bool)
      reads this
    {
      (!spec.netlinkExport ==> exporting == exported) && (!spec.netlinkImport ==> importing == imported)
    }

    /** A strict daemon has already lost a group the spec names. */
    ghost predicate Wedged(spec: CleanupSpec)
      reads gobgpd
    {
      gobgpd.strict && exists n :: n in spec.groups && n !in gobgpd.groups
    }
  }

  /** Some named keys of the table are gone; the rest is as it was. */
  ghost predicate OnlyGone<V>(after: map<string, V>, before: map<string, V>, keys: seq<string>) {
    && (forall k :: k in after ==> k in before && after[k] == before[k])
    && (forall k :: k in before && k !in after ==> k in keys)
  }

  class CleanupReconciler {
    const node: Node

    constructor (node: Node)
      ensures this.node == node
    {
      this.node := node;
    }

    /** listPeerKeys: unlike the reconcile path, a stream that breaks off is an error. */
    method ListPeerKeys() returns (ok: bool, keys: set<string>)
      requires node.gobgpd.Valid() && node.connected
      ensures node.gobgpd.healthy ==> ok
      ensures ok ==> keys == node.gobgpd.peers.Keys
    {
      var started, stream, complete := node.gobgpd.ListPeer();
      keys := {};
      for i := 0 to |stream|
        invariant keys <= node.gobgpd.peers.Keys
        invariant forall j :: 0 <= j < i ==> PeerKey(stream[j].conf) in keys
      {
        keys := keys + {PeerKey(stream[i].conf)};
      }
      ok := started && complete;
      forall k | complete && k in node.gobgpd.peers ensures k in keys {
        assert Lists(stream, k);
      }
    }

    /** deletePeerByKey. */
    method DeletePeerByKey(config: NeighborConfig) returns (ok: bool)
      requires node.gobgpd.Valid() && node.connected
      modifies node.gobgpd`peers, node.gobgpd`writes, node.gobgpd`applied
      ensures node.gobgpd.Valid()
      ensures var key := KeyFromConfig(config);
        && (node.gobgpd.healthy ==> (ok <==> key in old(node.gobgpd.peers)))
        && (node.gobgpd.peers == old(node.gobgpd.peers) || node.gobgpd.peers == old(node.gobgpd.peers) - {key})
        && (ok ==> key in old(node.gobgpd.peers) && node.gobgpd.peers == old(node.gobgpd.peers) - {key})
    {
      if config.neighborInterface != "" {
        ok := node.gobgpd.DeletePeer(ByInterface(config.neighborInterface));
      } else {
        ok := node.gobgpd.DeletePeer(ByAddress(config.neighborAddress));
      }
    }

    /** How far the neighbor step has come, with the keys of done walked. */
    ghost predicate Cleaning(peers: map<string, Peer>, before: map<string, Peer>, done: seq<string>, errors: nat, healthy: bool) {
      && OnlyGone(peers, before, done)
      && (errors == 0 || healthy ==> forall k :: k in done ==> k !in peers)
      && (healthy ==> errors == Repeats(done, before.Keys))
    }

    lemma CleaningStep(peers: map<string, Peer>, after: map<string, Peer>, before: map<string, Peer>, done: seq<string>,
                       key: string, errors: nat, failed: bool, healthy: bool)
      requires Cleaning(peers, before, done, errors, healthy)
      requires if failed then (after == peers || after == peers - {key}) && (healthy ==> key !in peers && key in before)
               else (after == peers && key !in before) || (after == peers - {key} && key in peers)
      ensures Cleaning(after, before, done + [key], errors + if failed then 1 else 0, healthy)
    {
      assert (done + [key])[..|done|] == done;
    }

    lemma CleaningEnds(peers: map<string, Peer>, before: map<string, Peer>, keys: seq<string>, errors: nat, healthy: bool)
      requires Cleaning(peers, before, keys, errors, healthy)
      ensures OnlyGone(peers, before, keys)
      ensures errors == 0 || healthy ==> forall k :: k in keys ==> k !in peers
      ensures healthy ==> errors == Repeats(keys, before.Keys)
    {
    }

    /** The neighbor step: only what the daemon has, or everything when the daemon cannot be asked. */
    method CleanUpNeighbors(neighbors: seq<Neighbor>) returns (errors: nat)
      requires node.gobgpd.Valid() && node.connected
      modifies node.gobgpd`peers, node.gobgpd`writes, node.gobgpd`applied
      ensures node.gobgpd.Valid()
      ensures OnlyGone(node.gobgpd.peers, old(node.gobgpd.peers), KeysOf(neighbors))
      ensures errors == 0 ==> forall k :: k in KeysOf(neighbors) ==> k !in node.gobgpd.peers
      ensures node.gobgpd.healthy ==>
        && errors == Repeats(KeysOf(neighbors), old(node.gobgpd.peers).Keys)
        && forall k :: k in KeysOf(neighbors) ==> k !in node.gobgpd.peers
    {
      ghost var before, keys := node.gobgpd.peers, KeysOf(neighbors);
      hide Cleaning, OnlyGone, Repeats, KeyedPeers, KeyedGroups;
      var listed, present := ListPeerKeys();
      errors := 0;
      CleaningStart(before, node.gobgpd.healthy);
      for i := 0 to |neighbors|
        invariant node.gobgpd.Valid()
        invariant Cleaning(node.gobgpd.peers, before, keys[..i], errors, node.gobgpd.healthy)
      {
        assert keys[..i + 1] == keys[..i] + [keys[i]];
        var key := KeyFromConfig(neighbors[i].config);
        ghost var peers := node.gobgpd.peers;
        if listed && key !in present {
          CleaningStep(peers, peers, before, keys[..i], key, errors, false, node.gobgpd.healthy);
          continue;
        }
        var ok := DeletePeerByKey(neighbors[i].config);
        CleaningStep(peers, node.gobgpd.peers, before, keys[..i], key, errors, !ok, node.gobgpd.healthy);
        if !ok {
          errors := errors + 1;
        }
      }
      assert keys[..|neighbors|] == keys;
      CleaningEnds(node.gobgpd.peers, before, keys, errors, node.gobgpd.healthy);
    }

    lemma CleaningStart(before: map<string, Peer>, healthy: bool)
      ensures Cleaning(before, before, [], 0, healthy)
    {
    }

    /** The peer group step deletes without looking. */
    method CleanUpGroups(names: seq<string>) returns (errors: nat)
      requires node.gobgpd.Valid() && node.connected
      modifies node.gobgpd`groups, node.gobgpd`writes, node.gobgpd`applied
      ensures node.gobgpd.Valid()
      ensures OnlyGone(node.gobgpd.groups, old(node.gobgpd.groups), names)
      ensures errors == 0 ==> forall n :: n in names ==> n !in node.gobgpd.groups
      ensures node.gobgpd.strict && (exists n :: n in names && n !in old(node.gobgpd.groups)) ==> errors > 0
      ensures node.gobgpd.healthy ==>
        && errors == Refusals(names, old(node.gobgpd.groups).Keys, node.gobgpd.peers, node.gobgpd.strict)
        && forall n :: n in names && n in node.gobgpd.groups ==> HasMembers(n, node.gobgpd.peers)
    {
      hide HasMembers, KeyedPeers, KeyedGroups;
      ghost var before := node.gobgpd.groups;
      errors := 0;
      for i := 0 to |names|
        invariant node.gobgpd.Valid()
        invariant OnlyGone(node.gobgpd.groups, before, names[..i])
        invariant forall n :: n in names[..i] && n in node.gobgpd.groups ==> HasMembers(n, node.gobgpd.peers) || !node.gobgpd.healthy
        invariant errors == 0 ==> forall n :: n in names[..i] ==> n !in node.gobgpd.groups
        invariant node.gobgpd.strict && (exists n :: n in names[..i] && n !in before) ==> errors > 0
        invariant node.gobgpd.healthy ==> errors == Refusals(names[..i], before.Keys, node.gobgpd.peers, node.gobgpd.strict)
      {
        assert names[..i + 1][..i] == names[..i] && names[..i + 1] == names[..i] + [names[i]];
        var ok := node.gobgpd.DeletePeerGroup(names[i]);
        if !ok {
          errors := errors + 1;
        }
      }
      assert names[..|names|] == names;
    }

    /** One of the four remaining steps, for one kind of object. */
    method CleanUpObjects(names: seq<string>, kind: string -> Object) returns (errors: nat)
      requires node.connected
      modifies node`objects
      ensures node.objects <= old(node.objects)
      ensures forall o :: o in old(node.objects) && o !in node.objects ==> exists n :: n in names && kind(n) == o
      ensures errors == 0 ==> forall n :: n in names ==> kind(n) !in node.objects
      ensures node.obliging ==> errors == 0
    {
      errors := 0;
      for i := 0 to |names|
        invariant node.objects <= old(node.objects)
        invariant forall o :: o in old(node.objects) && o !in node.objects ==> exists n :: n in names && kind(n) == o
        invariant errors == 0 ==> forall n :: n in names[..i] ==> kind(n) !in node.objects
        invariant node.obliging ==> errors == 0
      {
        assert names[..i + 1] == names[..i] + [names[i]];
        var ok := node.DeleteObject(kind(names[i]));
        if !ok {
          errors := errors + 1;
        }
      }
      assert names[..|names|] == names;
    }

    /** The last three of them. */
    method CleanUpTables(spec: CleanupSpec) returns (errors: nat)
      requires node.connected
      modifies node`objects
      ensures node.objects <= old(node.objects)
      ensures forall o :: o in old(node.objects) && o !in node.objects ==> Names(spec, o)
      ensures errors == 0 ==> forall o :: o in node.objects && Names(spec, o) ==> o.DynamicNeighbor?
      ensures node.obliging ==> errors == 0
    {
      errors := CleanUpObjects(spec.vrfs, n => Vrf(n));
      var e := CleanUpObjects(spec.policies, n => Policy(n));
      errors := errors + e;
      e := CleanUpObjects(spec.definedSets, n => DefinedSet(n));
      errors := errors + e;
    }

    /** reconcileDelete of a configuration that carries the finalizer; released says that it was removed. A
        daemon that cannot be dialed, any recorded error, and a failed update of the object keep it, and nothing
        else does: a failure to disable netlink neither blocks nor counts. Whatever fails, only what the spec
        names goes, so a release leaves exactly what it does not name. Without failures the pass runs, records
        the repeats and the refusals and nothing else, leaves of what is named only groups with members, and
        switches off the netlink export and import that the spec asked for. */
    method ReconcileDelete(spec: CleanupSpec) returns (released: bool, report: CleanupReport)
      requires node.gobgpd.Valid()
      modifies node`connected, node`objects, node`exporting, node`importing,
               node.gobgpd`peers, node.gobgpd`groups, node.gobgpd`writes, node.gobgpd`applied
      ensures node.gobgpd.Valid()
      ensures released <==> report.Ran? && report.errors == 0 && report.updated
      ensures report.Ran? && report.errors == 0 ==> node.Clean(spec)
      ensures OnlyGone(node.gobgpd.peers, old(node.gobgpd.peers), KeysOf(spec.neighbors))
      ensures OnlyGone(node.gobgpd.groups, old(node.gobgpd.groups), spec.groups)
      ensures node.objects <= old(node.objects) && forall o :: o in old(node.objects) && !Names(spec, o) ==> o in node.objects
      ensures report.Ran? && report.exportDisabled ==> spec.netlinkExport && !node.exporting
      ensures report.Ran? && report.importDisabled ==> spec.netlinkImport && !node.importing
      ensures node.NetlinkKept(spec, old(node.exporting), old(node.importing))
      ensures old(node.Wedged(spec)) ==> node.Wedged(spec) && !released
      ensures node.Faultless() ==>
        && report.Ran? && report.updated
        && report.errors == Repeats(KeysOf(spec.neighbors), old(node.gobgpd.peers).Keys)
                            + Refusals(spec.groups, old(node.gobgpd.groups).Keys, node.gobgpd.peers, node.gobgpd.strict)
        && (forall k :: k in KeysOf(spec.neighbors) ==> k !in node.gobgpd.peers)
        && (forall n :: n in spec.groups && n in node.gobgpd.groups ==> HasMembers(n, node.gobgpd.peers))
        && (forall o :: o in node.objects ==> !Names(spec, o))
        && report.exportDisabled == (spec.netlinkExport && old(node.exporting))
        && report.importDisabled == (spec.netlinkImport && old(node.importing))
        && node.NetlinkOff(spec)
    {
      hide HasMembers, KeyedPeers, KeyedGroups, Repeats, Refusals, KeysOf;
      node.Dial();
      if !node.connected {
        return false, Undialed;
      }
      var errors := CleanUpNeighbors(spec.neighbors);
      var e := CleanUpObjects(spec.dynamicPrefixes, n => DynamicNeighbor(n));
      errors := errors + e;
      e := CleanUpGroups(spec.groups);
      errors := errors + e;
      e := CleanUpTables(spec);
      errors := errors + e;
      var exportDisabled, importDisabled := false, false;
      if spec.netlinkExport {
        exportDisabled := node.DisableNetlinkExport();
      }
      if spec.netlinkImport {
        importDisabled := node.DisableNetlinkImport();
      }
      var updated := node.Succeeds();
      report := Ran(errors, updated, exportDisabled, importDisabled);
      released := errors == 0 && updated;
    }

    lemma LeftUnnamed(peers: map<string, Peer>, before: map<string, Peer>, keys: seq<string>)
      requires OnlyGone(peers, before, keys) && forall k :: k in keys ==> k !in peers
      ensures peers == Unnamed(before, keys)
    {
      assert forall k :: k in peers <==> k in Unnamed(before, keys);
    }

    /** Retries of a deleted configuration until it is released. A release leaves exactly what the spec does not
        name, of what the daemon held when the retries began. Without failures, from the second pass on, the
        configuration is released exactly when it is cleanable, and never otherwise. And once a strict daemon has
        lost a named group, whether to an earlier pass that failed on something else or because the group was
        never applied on this node, no number of retries releases it, whatever fails or not. */
    method DeleteUntilReleased(spec: CleanupSpec, passes: nat) returns (released: bool)
      requires node.gobgpd.Valid()
      modifies node`connected, node`objects, node`exporting, node`importing,
               node.gobgpd`peers, node.gobgpd`groups, node.gobgpd`writes, node.gobgpd`applied
      ensures node.gobgpd.Valid()
      ensures OnlyGone(node.gobgpd.peers, old(node.gobgpd.peers), KeysOf(spec.neighbors))
      ensures OnlyGone(node.gobgpd.groups, old(node.gobgpd.groups), spec.groups)
      ensures node.objects <= old(node.objects) && forall o :: o in old(node.objects) && !Names(spec, o) ==> o in node.objects
      ensures released ==>
        && (forall k :: k in node.gobgpd.peers <==> k in old(node.gobgpd.peers) && k !in KeysOf(spec.neighbors))
        && (forall n :: n in node.gobgpd.groups <==> n in old(node.gobgpd.groups) && n !in spec.groups)
        && (forall o :: o in node.objects <==> o in old(node.objects) && !Names(spec, o))
      ensures old(node.Wedged(spec)) ==> node.Wedged(spec) && !released
      ensures node.Faultless() && passes > 0 ==>
        && node.gobgpd.peers == Unnamed(old(node.gobgpd.peers), KeysOf(spec.neighbors))
        && node.NetlinkOff(spec)
      ensures node.NetlinkKept(spec, old(node.exporting), old(node.importing))
      ensures node.Faultless() ==>
        (released <==>
          if passes == 0 then false
          else if passes == 1 then
            CleanAtOnce(spec, old(node.gobgpd.peers), old(node.gobgpd.groups).Keys, node.gobgpd.strict)
          else
            Cleanable(spec, old(node.gobgpd.peers), old(node.gobgpd.groups).Keys, node.gobgpd.strict))
    {
      hide KeyedPeers, KeyedGroups, KeysOf, HasMembers, Repeats, Refusals, CleanAtOnce, Cleanable, Unnamed, OnlyGone, Names, Retried, Node.NetlinkOff;
      ghost var peers, groups, objects := node.gobgpd.peers, node.gobgpd.groups, node.objects;
      ghost var keys := KeysOf(spec.neighbors);
      NothingGone(peers, keys);
      NothingGone(groups, spec.groups);
      released := false;
      var i := 0;
      RetriedNever(spec, peers, groups, node.gobgpd.strict);
      while i < passes && !released
        invariant node.gobgpd.Valid() && i <= passes
        invariant OnlyGone(node.gobgpd.peers, peers, keys) && OnlyGone(node.gobgpd.groups, groups, spec.groups)
        invariant node.objects <= objects && forall o :: o in objects && !Names(spec, o) ==> o in node.objects
        invariant released ==> i > 0 && node.Clean(spec)
        invariant i > 0 && node.Faultless() ==> node.NetlinkOff(spec)
        invariant node.NetlinkKept(spec, old(node.exporting), old(node.importing))
        invariant old(node.Wedged(spec)) ==> node.Wedged(spec) && !released
        invariant node.Faultless() ==> Retried(spec, i, released, node.gobgpd.peers, node.gobgpd.groups, peers, groups, node.gobgpd.strict)
      {
        ghost var before, had := node.gobgpd.peers, node.gobgpd.groups;
        var report;
        released, report := ReconcileDelete(spec);
        StillOnlyGone(node.gobgpd.peers, before, peers, keys);
        StillOnlyGone(node.gobgpd.groups, had, groups, spec.groups);
        if node.Faultless() {
          RetriedAgain(spec, i, released, node.gobgpd.peers, node.gobgpd.groups, before, had, peers, groups, node.gobgpd.strict);
        }
        i := i + 1;
      }
      if node.Faultless() {
        RetriedEnough(spec, i, passes, released, node.gobgpd.peers, node.gobgpd.groups, peers, groups, node.gobgpd.strict);
      }
      if released {
        WhatIsLeft(node.gobgpd.peers, peers, keys);
        WhatIsLeft(node.gobgpd.groups, groups, spec.groups);
      }
    }

    /** Where retries without failures have come to after so many passes. */
    ghost predicate Retried(spec: CleanupSpec, passes: nat, released: bool, left: map<string, Peer>, leftGroups: map<string, PeerGroup>,
                            peers: map<string, Peer>, groups: map<string, PeerGroup>, strict: bool) {
      && (passes == 0 ==> !released && left == peers && leftGroups == groups)
      && (passes > 0 ==>
           && left == Unnamed(peers, KeysOf(spec.neighbors))
           && (forall k :: k in KeysOf(spec.neighbors) ==> k !in left)
           && (forall n :: n in spec.groups && n in leftGroups ==> HasMembers(n, left)))
      && (passes == 1 ==> (released <==> CleanAtOnce(spec, peers, groups.Keys, strict)))
      && (passes > 1 ==> !CleanAtOnce(spec, peers, groups.Keys, strict) && (released <==> Cleanable(spec, peers, groups.Keys, strict)))
    }

    lemma RetriedNever(spec: CleanupSpec, peers: map<string, Peer>, groups: map<string, PeerGroup>, strict: bool)
      ensures Retried(spec, 0, false, peers, groups, peers, groups, strict)
    {
    }

    lemma RetriedAgain(spec: CleanupSpec, passes: nat, released: bool, left: map<string, Peer>, leftGroups: map<string, PeerGroup>,
                       before: map<string, Peer>, had: map<string, PeerGroup>,
                       peers: map<string, Peer>, groups: map<string, PeerGroup>, strict: bool)
      requires Retried(spec, passes, false, before, had, peers, groups, strict)
      requires OnlyGone(left, peers, KeysOf(spec.neighbors)) && OnlyGone(left, before, KeysOf(spec.neighbors))
      requires released <==> Repeats(KeysOf(spec.neighbors), before.Keys) + Refusals(spec.groups, had.Keys, left, strict) == 0
      requires forall k :: k in KeysOf(spec.neighbors) ==> k !in left
      requires forall n :: n in spec.groups && n in leftGroups ==> HasMembers(n, left)
      ensures Retried(spec, passes + 1, released, left, leftGroups, peers, groups, strict)
    {
      hide KeysOf, HasMembers, Repeats, Refusals, CleanAtOnce, Cleanable, Unnamed, OnlyGone;
      LeftUnnamed(left, peers, KeysOf(spec.neighbors));
      PassReleases(spec, peers, groups.Keys, strict);
      if passes > 0 {
        LeftUnnamed(left, before, KeysOf(spec.neighbors));
        RetriesAreAlike(spec, before, had.Keys, strict);
      }
    }

    lemma RetriedEnough(spec: CleanupSpec, i: nat, passes: nat, released: bool, left: map<string, Peer>, leftGroups: map<string, PeerGroup>,
                        peers: map<string, Peer>, groups: map<string, PeerGroup>, strict: bool)
      requires Retried(spec, i, released, left, leftGroups, peers, groups, strict)
      requires i == passes || (i < passes && released)
      ensures passes > 0 ==> left == Unnamed(peers, KeysOf(spec.neighbors))
      ensures released <==>
        if passes == 0 then false
        else if passes == 1 then CleanAtOnce(spec, peers, groups.Keys, strict)
        else Cleanable(spec, peers, groups.Keys, strict)
    {
      hide KeysOf, HasMembers, CleanAtOnce, Cleanable, Unnamed;
      if CleanAtOnce(spec, peers, groups.Keys, strict) {
        CleanAtOnceIsCleanable(spec, peers, groups.Keys, strict);
      }
    }

    lemma NothingGone<V>(table: map<string, V>, keys: seq<string>)
      ensures OnlyGone(table, table, keys)
    {
    }

    lemma StillOnlyGone<V>(after: map<string, V>, mid: map<string, V>, before: map<string, V>, keys: seq<string>)
      requires OnlyGone(after, mid, keys) && OnlyGone(mid, before, keys)
      ensures OnlyGone(after, before, keys)
    {
    }

    lemma WhatIsLeft<V>(after: map<string, V>, before: map<string, V>, keys: seq<string>)
      requires OnlyGone(after, before, keys) && forall k :: k in keys ==> k !in after
      ensures forall k :: k in after <==> k in before && k !in keys
    {
    }

    /** What the first pass, and what the others, are asked for. */
    lemma PassReleases(spec: CleanupSpec, peers: map<string, Peer>, groups: set<string>, strict: bool)
      ensures var left := Unnamed(peers, KeysOf(spec.neighbors));
        && (CleanAtOnce(spec, peers, groups, strict) <==>
            Repeats(KeysOf(spec.neighbors), peers.Keys) + Refusals(spec.groups, groups, left, strict) == 0)
        && (!CleanAtOnce(spec, peers, groups, strict) ==>
            (Cleanable(spec, peers, groups, strict) <==>
             !(strict && spec.groups != []) && forall i :: 0 <= i < |spec.groups| ==> !HasMembers(spec.groups[i], left)))
    {
      hide HasMembers, KeysOf, Repeats, Refusals, Unnamed;
    }

    /** The neighbor step over a whole run of retries: against a daemon that only ever rejects deletes of
        unknown peers, every pass but the first is clean, however often the spec repeats a key. */
    method RetryNeighborStep(neighbors: seq<Neighbor>, passes: nat) returns (errors: seq<nat>)
      requires node.gobgpd.Valid() && node.gobgpd.healthy && node.connected
      modifies node.gobgpd`peers, node.gobgpd`writes, node.gobgpd`applied
      ensures |errors| == passes
      ensures passes > 0 ==> errors[0] == Repeats(KeysOf(neighbors), old(node.gobgpd.peers).Keys)
      ensures forall i :: 0 < i < passes ==> errors[i] == 0
    {
      errors := [];
      for i := 0 to passes
        invariant node.gobgpd.Valid() && node.gobgpd.healthy && |errors| == i
        invariant i == 0 ==> node.gobgpd.peers == old(node.gobgpd.peers)
        invariant i > 0 ==> errors[0] == Repeats(KeysOf(neighbors), old(node.gobgpd.peers).Keys)
        invariant i > 0 ==> forall k :: k in KeysOf(neighbors) ==> k !in node.gobgpd.peers
        invariant forall j :: 0 < j < i ==> errors[j] == 0
      {
        if i > 0 {
          NothingLeftToRepeat(KeysOf(neighbors), node.gobgpd.peers.Keys);
        }
        var e := CleanUpNeighbors(neighbors);
        errors := errors + [e];
      }
    }
  }
}
