/** gobgpd as the controller's environment: it holds peers and groups as they were sent, and answers
    every call by its own rules or, when it is not healthy, with an arbitrary failure. */
module Daemon {
  import opened Messages
  import opened Echo

  /** DeletePeer names its peer by interface or by address. */
  datatype PeerRef = ByInterface(iface: string) | ByAddress(address: string)

  function RefKey(r: PeerRef): string {
    match r
    case ByInterface(i) => NeighborKey("", i)
    case ByAddress(a) => a
  }

  ghost predicate KeyedPeers(peers: map<string, Peer>) {
    forall k :: k in peers ==> PeerKey(peers[k].conf) == k
  }

  ghost predicate KeyedGroups(groups: map<string, PeerGroup>) {
    forall n :: n in groups ==> groups[n].conf.peerGroupName == n
  }

  /** A group still named by some peer cannot be deleted; the empty name means no group. */
  predicate HasMembers(name: string, peers: map<string, Peer>) {
    name != "" && exists k :: k in peers && peers[k].conf.peerGroup == name
  }

  /** The report of a peer carries the peer's own key. */
  lemma ViewKeepsKey(s: Peer, groups: map<string, PeerGroup>, env: Defaults)
    ensures PeerKey(View(s, groups, env).conf) == PeerKey(s.conf)
  {
  }

  /** Everything in a ListPeer stream is the report of a held peer. */
  ghost predicate Reported(stream: seq<Peer>, peers: map<string, Peer>, groups: map<string, PeerGroup>, env: Defaults) {
    forall i :: 0 <= i < |stream| ==>
      PeerKey(stream[i].conf) in peers && stream[i] == View(peers[PeerKey(stream[i].conf)], groups, env)
  }

  ghost predicate Lists(stream: seq<Peer>, key: string) {
    exists i :: 0 <= i < |stream| && PeerKey(stream[i].conf) == key
  }

  lemma AppendedIsListed(stream: seq<Peer>, p: Peer)
    ensures Lists(stream + [p], PeerKey(p.conf))
    ensures forall k :: Lists(stream, k) ==> Lists(stream + [p], k)
  {
    var longer := stream + [p];
    assert longer[|stream|] == p;
    forall k | Lists(stream, k) ensures Lists(longer, k) {
      var i :| 0 <= i < |stream| && PeerKey(stream[i].conf) == k;
      assert longer[i] == stream[i];
    }
  }

  lemma GroupViewKeepsName(g: PeerGroup, env: Defaults)
    ensures GroupView(g, env).conf.peerGroupName == g.conf.peerGroupName
  {
  }

  ghost predicate ListsGroup(stream: seq<PeerGroup>, name: string) {
    exists i :: 0 <= i < |stream| && stream[i].conf.peerGroupName == name
  }

  class Gobgpd {
    const env: Defaults
    /** Whether deleting a peer group that does not exist is an error; the sources do not say. */
    const strict: bool
    /** While true, no call fails for a reason other than the daemon's own rules. */
    var healthy: bool
    var peers: map<string, Peer>
    var groups: map<string, PeerGroup>
    /** Write calls received, and those that took effect, which an error need not exclude. */
    var writes: nat
    var applied: nat

    ghost predicate Valid()
      reads this
    {
      KeyedPeers(peers) && KeyedGroups(groups)
    }

    constructor (env: Defaults, strict: bool)
      ensures Valid() && this.env == env && this.strict == strict && peers == map[] && groups == map[]
    {
      this.env, this.strict := env, strict;
      healthy, peers, groups, writes, applied := true, map[], map[], 0, 0;
    }

    function Report(key: string): Peer
      requires key in peers
      reads this
    {
      View(peers[key], groups, env)
    }

    /** What may go wrong with a write besides the daemon's rules: the call is lost, or only its reply is. */
    method Faults() returns (ok: bool, took: bool)
      ensures ok ==> took
      ensures healthy ==> ok
    {
      var lost: bool, unanswered: bool := *, *;
      took := healthy || !lost;
      ok := took && (healthy || !unanswered);
    }

    /** The stream of ListPeer, in any order; ended early, or not opened at all, only when not healthy. */
    method ListPeer() returns (ok: bool, stream: seq<Peer>, complete: bool)
      requires Valid()
      ensures healthy ==> ok && complete
      ensures Reported(stream, peers, groups, env)
      ensures complete ==> forall k :: k in peers ==> Lists(stream, k)
    {
      hide View;
      var cut: bool := *;
      ok, stream, complete := true, [], true;
      if cut && !healthy {
        ok, complete := false, false;
        return;
      }
      var todo := peers.Keys;
      while todo != {}
        invariant todo <= peers.Keys
        invariant ok && complete
        invariant Reported(stream, peers, groups, env)
        invariant forall k :: k in peers && k !in todo ==> Lists(stream, k)
      {
        cut := *;
        if cut && !healthy {
          complete := false;
          return;
        }
        var k :| k in todo;
        todo := todo - {k};
        ViewKeepsKey(peers[k], groups, env);
        AppendedIsListed(stream, Report(k));
        stream := stream + [Report(k)];
      }
    }

    method AddPeer(p: Peer) returns (ok: bool)
      requires Valid()
      modifies this`peers, this`writes, this`applied
      ensures Valid()
      ensures ok ==> applied > old(applied)
      ensures applied > old(applied) ==> PeerKey(p.conf) !in old(peers)
      ensures healthy ==> (ok <==> PeerKey(p.conf) !in old(peers))
      ensures healthy && applied > old(applied) ==> ok
      ensures peers == if applied > old(applied) then old(peers)[PeerKey(p.conf) := p] else old(peers)
      ensures writes == old(writes) + 1 && old(applied) <= applied <= old(applied) + 1
    {
      writes := writes + 1;
      var allowed := PeerKey(p.conf) !in peers;
      var took: bool;
      ok, took := Faults();
      ok, took := ok && allowed, took && allowed;
      if took {
        peers := peers[PeerKey(p.conf) := p];
        applied := applied + 1;
      }
    }

    method UpdatePeer(p: Peer) returns (ok: bool)
      requires Valid()
      modifies this`peers, this`writes, this`applied
      ensures Valid()
      ensures ok ==> applied > old(applied)
      ensures applied > old(applied) ==> PeerKey(p.conf) in old(peers)
      ensures healthy ==> (ok <==> PeerKey(p.conf) in old(peers))
      ensures healthy && applied > old(applied) ==> ok
      ensures peers == if applied > old(applied) then old(peers)[PeerKey(p.conf) := p] else old(peers)
      ensures writes == old(writes) + 1 && old(applied) <= applied <= old(applied) + 1
    {
      writes := writes + 1;
      var allowed := PeerKey(p.conf) in peers;
      var took: bool;
      ok, took := Faults();
      ok, took := ok && allowed, took && allowed;
      if took {
        peers := peers[PeerKey(p.conf) := p];
        applied := applied + 1;
      }
    }

    /** Deleting a peer the daemon does not have is an error. */
    method DeletePeer(r: PeerRef) returns (ok: bool)
      requires Valid()
      modifies this`peers, this`writes, this`applied
      ensures Valid()
      ensures ok ==> applied > old(applied)
      ensures applied > old(applied) ==> RefKey(r) in old(peers)
      ensures healthy ==> (ok <==> RefKey(r) in old(peers))
      ensures healthy && applied > old(applied) ==> ok
      ensures peers == if applied > old(applied) then old(peers) - {RefKey(r)} else old(peers)
      ensures writes == old(writes) + 1 && old(applied) <= applied <= old(applied) + 1
    {
      writes := writes + 1;
      var allowed := RefKey(r) in peers;
      var took: bool;
      ok, took := Faults();
      ok, took := ok && allowed, took && allowed;
      if took {
        peers := peers - {RefKey(r)};
        applied := applied + 1;
      }
    }

    method ListPeerGroup() returns (ok: bool, stream: seq<PeerGroup>, complete: bool)
      requires Valid()
      ensures healthy ==> ok && complete
      ensures forall i :: 0 <= i < |stream| ==>
        stream[i].conf.peerGroupName in groups && stream[i] == GroupView(groups[stream[i].conf.peerGroupName], env)
      ensures complete ==> forall n :: n in groups ==> ListsGroup(stream, n)
    {
      hide GroupView;
      var cut: bool := *;
      ok, stream, complete := true, [], true;
      if cut && !healthy {
        ok, complete := false, false;
        return;
      }
      var todo := groups.Keys;
      while todo != {}
        invariant todo <= groups.Keys
        invariant ok && complete
        invariant forall i :: 0 <= i < |stream| ==>
          stream[i].conf.peerGroupName in groups && stream[i] == GroupView(groups[stream[i].conf.peerGroupName], env)
        invariant forall n :: n in groups && n !in todo ==> ListsGroup(stream, n)
      {
        cut := *;
        if cut && !healthy {
          complete := false;
          return;
        }
        var n :| n in todo;
        todo := todo - {n};
        ghost var before := stream;
        GroupViewKeepsName(groups[n], env);
        stream := stream + [GroupView(groups[n], env)];
        assert stream[|before|].conf.peerGroupName == n;
        forall n' | n' in groups && n' !in todo ensures ListsGroup(stream, n') {
          if n' != n {
            var i :| 0 <= i < |before| && before[i].conf.peerGroupName == n';
            assert stream[i].conf.peerGroupName == n';
          }
        }
      }
    }

    method AddPeerGroup(g: PeerGroup) returns (ok: bool)
      requires Valid()
      modifies this`groups, this`writes, this`applied
      ensures Valid()
      ensures ok ==> applied > old(applied)
      ensures applied > old(applied) ==> g.conf.peerGroupName !in old(groups)
      ensures healthy ==> (ok <==> g.conf.peerGroupName !in old(groups))
      ensures healthy && applied > old(applied) ==> ok
      ensures groups == if applied > old(applied) then old(groups)[g.conf.peerGroupName := g] else old(groups)
      ensures writes == old(writes) + 1 && old(applied) <= applied <= old(applied) + 1
    {
      writes := writes + 1;
      var allowed := g.conf.peerGroupName !in groups;
      var took: bool;
      ok, took := Faults();
      ok, took := ok && allowed, took && allowed;
      if took {
        groups := groups[g.conf.peerGroupName := g];
        applied := applied + 1;
      }
    }

    method UpdatePeerGroup(g: PeerGroup) returns (ok: bool)
      requires Valid()
      modifies this`groups, this`writes, this`applied
      ensures Valid()
      ensures ok ==> applied > old(applied)
      ensures applied > old(applied) ==> g.conf.peerGroupName in old(groups)
      ensures healthy ==> (ok <==> g.conf.peerGroupName in old(groups))
      ensures healthy && applied > old(applied) ==> ok
      ensures groups == if applied > old(applied) then old(groups)[g.conf.peerGroupName := g] else old(groups)
      ensures writes == old(writes) + 1 && old(applied) <= applied <= old(applied) + 1
    {
      writes := writes + 1;
      var allowed := g.conf.peerGroupName in groups;
      var took: bool;
      ok, took := Faults();
      ok, took := ok && allowed, took && allowed;
      if took {
        groups := groups[g.conf.peerGroupName := g];
        applied := applied + 1;
      }
    }

    method DeletePeerGroup(name: string) returns (ok: bool)
      requires Valid()
      modifies this`groups, this`writes, this`applied
      ensures Valid()
      ensures ok ==> applied > old(applied)
      ensures applied > old(applied) ==> (strict ==> name in old(groups)) && !HasMembers(name, peers)
      ensures healthy ==> (ok <==> (strict ==> name in old(groups)) && !HasMembers(name, peers))
      ensures healthy && applied > old(applied) ==> ok
      ensures groups == if applied > old(applied) then old(groups) - {name} else old(groups)
      ensures writes == old(writes) + 1 && old(applied) <= applied <= old(applied) + 1
    {
      writes := writes + 1;
      var allowed := (strict ==> name in groups) && !HasMembers(name, peers);
      var took: bool;
      ok, took := Faults();
      ok, took := ok && allowed, took && allowed;
      if took {
        groups := groups - {name};
        applied := applied + 1;
      }
    }
  }
}
