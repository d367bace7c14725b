/** Converter, daemon and comparator agree: what was just sent never compares as different, and what a
    group owns is never compared. */
module NoChurn {
  import opened Wrappers
  import opened Messages
  import opened Converters
  import opened Echo
  import opened Comparators

  /** A stored peer compares equal to its own report under any groups and any daemon defaults, exactly when
      its sendCommunity has an encoding; and its password presence never drifts. */
  lemma StoredPeerIsQuietIff(d: Peer, groups: map<string, PeerGroup>, env: Defaults)
    ensures PeerConfigEqual(d, View(d, groups, env)) <==> Encodable(d.conf.sendCommunity)
    ensures !AuthPasswordDrifted(d, View(d, groups, env))
  {
    var g := GroupOf(groups, d.conf.peerGroup);
    var v := Resolve(d, g, env);
    assert AfiSafisEqual(d.afiSafis, v.afiSafis);
    assert (d.conf.peerGroup != "" && d.transport.None?) || TransportEqual(d.transport, v.transport);
    assert (d.conf.peerGroup != "" && d.bfd.None?) || BfdEqual(d.bfd, v.bfd, true);
  }

  /** No inherited, defaulted, derived or redacted field can cause an UpdatePeer: not now, and not after
      the groups or the daemon's defaults change under a member that stays as sent. */
  lemma ConvertedNeighborNeverChurns(n: Neighbor, password: Option<string>, groups: map<string, PeerGroup>, env: Defaults)
    ensures !NeedsUpdate(ToPeer(n, password), View(ToPeer(n, password), groups, env))
  {
    StoredPeerIsQuietIff(ToPeer(n, password), groups, env);
  }

  lemma StoredGroupIsQuietIff(d: PeerGroup, env: Defaults)
    ensures PeerGroupConfigEqual(d, GroupView(d, env)) <==> Encodable(d.conf.sendCommunity)
  {
    var v := GroupView(d, env);
    assert AfiSafisEqual(d.afiSafis, v.afiSafis);
  }

  lemma ConvertedGroupNeverChurns(g: PeerGroupSpec, password: string, env: Defaults)
    ensures PeerGroupConfigEqual(ToPeerGroup(g, password), GroupView(ToPeerGroup(g, password), env))
  {
    StoredGroupIsQuietIff(ToPeerGroup(g, password), env);
  }

  // ---- who owns a block ----

  /** A peer with one block replaced by that of another. */
  function WithBlock(c: Peer, b: Block, other: Peer): Peer {
    match b
    case AfiSafisBlock => c.(afiSafis := other.afiSafis)
    case ApplyPolicyBlock => c.(applyPolicy := other.applyPolicy)
    case BfdBlock => c.(bfd := other.bfd)
    case GracefulRestartBlock => c.(gracefulRestart := other.gracefulRestart)
    case TimersBlock => c.(timers := other.timers)
    case TransportBlock => c.(transport := other.transport)
  }

  /** The block, read off the message: a group is named and the message carries nothing for it. */
  predicate LeftToGroup(d: Peer, b: Block) {
    && d.conf.peerGroup != ""
    && match b
       case AfiSafisBlock => d.afiSafis == []
       case ApplyPolicyBlock => d.applyPolicy.None?
       case BfdBlock => d.bfd.None?
       case GracefulRestartBlock => d.gracefulRestart.None?
       case TimersBlock => d.timers.None?
       case TransportBlock => d.transport.None?
  }

  lemma InheritedBlocksAreLeftToGroup(d: Peer, b: Block)
    ensures b in InheritedBlocks(d) <==> LeftToGroup(d, b)
  {
  }

  /** The comparator's answer never depends on the block. */
  ghost predicate Ignores(d: Peer, b: Block) {
    forall c: Peer, other: Peer :: PeerConfigEqual(d, c) == PeerConfigEqual(d, WithBlock(c, b, other))
  }

  lemma LeftToGroupIsIgnored(d: Peer, c: Peer, b: Block, other: Peer)
    requires LeftToGroup(d, b) || (b == TimersBlock && TimersOf(d.timers) == ZERO_TIMERS)
    ensures PeerConfigEqual(d, c) == PeerConfigEqual(d, WithBlock(c, b, other))
  {
    match b
    case AfiSafisBlock =>
    case ApplyPolicyBlock =>
    case BfdBlock =>
    case GracefulRestartBlock =>
    case TimersBlock =>
    case TransportBlock =>
  }

  /** Replaces, one after the other, the listed blocks of c by those of another report. */
  function WithBlocks(c: Peer, blocks: seq<Block>, other: Peer): Peer {
    if blocks == [] then c else WithBlock(WithBlocks(c, blocks[..|blocks| - 1], other), blocks[|blocks| - 1], other)
  }

  /** Replacing everything the status names as inherited, with anything, leaves the comparison as it was. */
  lemma {:induction false} InheritedBlocksDoNotInterfere(d: Peer, c: Peer, blocks: seq<Block>, other: Peer)
    requires forall b :: b in blocks ==> b in InheritedBlocks(d)
    ensures PeerConfigEqual(d, c) == PeerConfigEqual(d, WithBlocks(c, blocks, other))
  {
    if blocks != [] {
      var n := |blocks| - 1;
      InheritedBlocksDoNotInterfere(d, c, blocks[..n], other);
      assert blocks[n] in blocks;
      InheritedBlocksAreLeftToGroup(d, blocks[n]);
      LeftToGroupIsIgnored(d, WithBlocks(c, blocks[..n], other), blocks[n], other);
    }
  }

  /** A report that differs from d in block b in a way the comparator would see if it looked. */
  function Disturbed(d: Peer, b: Block): Peer {
    match b
    case AfiSafisBlock => d.(afiSafis := d.afiSafis + d.afiSafis)
    case ApplyPolicyBlock =>
      d.(applyPolicy := Some(ApplyPolicy(Some(ImportOf(d.applyPolicy).(policies := ImportOf(d.applyPolicy).policies + [""])), None)))
    case BfdBlock => d.(bfd := Some(ZERO_BFD.(enabled := !d.bfd.GetOr(ZERO_BFD).enabled)))
    case GracefulRestartBlock =>
      d.(gracefulRestart := Some(ZERO_GRACEFUL.(enabled := !d.gracefulRestart.GetOr(ZERO_GRACEFUL).enabled)))
    case TimersBlock => d.(timers := None)
    case TransportBlock =>
      d.(transport := Some(ZERO_TRANSPORT.(passiveMode := !d.transport.GetOr(ZERO_TRANSPORT).passiveMode)))
  }

  lemma DisturbanceIsSeen(d: Peer, b: Block)
    requires d.conf.peerGroup != ""
    requires !LeftToGroup(d, b) && !(b == TimersBlock && TimersOf(d.timers) == ZERO_TIMERS)
    ensures PeerConfigEqual(d, d) && !PeerConfigEqual(d, Disturbed(d, b))
    ensures WithBlock(d, b, Disturbed(d, b)) == Disturbed(d, b)
  {
    var other := Disturbed(d, b);
    match b
    case AfiSafisBlock => assert |other.afiSafis| != |d.afiSafis|;
    case ApplyPolicyBlock => assert |ImportOf(other.applyPolicy).policies| != |ImportOf(d.applyPolicy).policies|;
    case BfdBlock =>
    case GracefulRestartBlock =>
    case TimersBlock =>
    case TransportBlock =>
  }

  /** For a grouped neighbor the comparator ignores exactly the blocks the status calls inherited, and one
      more: a timers block stated with nothing but zeros, which the status reports as the neighbor's own. */
  lemma IgnoredExactlyWhenInherited(d: Peer, b: Block)
    requires d.conf.peerGroup != ""
    ensures Ignores(d, b) <==> b in InheritedBlocks(d) || (b == TimersBlock && TimersOf(d.timers) == ZERO_TIMERS)
  {
    InheritedBlocksAreLeftToGroup(d, b);
    if LeftToGroup(d, b) || (b == TimersBlock && TimersOf(d.timers) == ZERO_TIMERS) {
      forall c: Peer, other: Peer ensures PeerConfigEqual(d, c) == PeerConfigEqual(d, WithBlock(c, b, other)) {
        LeftToGroupIsIgnored(d, c, b, other);
      }
    } else {
      DisturbanceIsSeen(d, b);
    }
  }

  /** That one case at an input: a timers block of zeros. The status calls the timers the neighbor's own, and the
      comparator accepts a reported hold time of 30 and one of 60 alike. */
  lemma ZeroTimersAreIgnoredUnreported(d: Peer, c: Peer, before: Timers, after: Timers)
    requires d.conf.peerGroup != "" && d.timers == Some(Timers(Some(TimersConfig(0, 0, 0)))) && PeerConfigEqual(d, c)
    requires before == Timers(Some(TimersConfig(120, 30, 10))) && after == Timers(Some(TimersConfig(120, 60, 20)))
    ensures TimersBlock !in InheritedBlocks(d) && Ignores(d, TimersBlock)
    ensures PeerConfigEqual(d, c.(timers := Some(before))) && PeerConfigEqual(d, c.(timers := Some(after)))
  {
    InheritedBlocksAreLeftToGroup(d, TimersBlock);
    IgnoredExactlyWhenInherited(d, TimersBlock);
    assert WithBlock(c, TimersBlock, c.(timers := Some(before))) == c.(timers := Some(before));
    assert WithBlock(c, TimersBlock, c.(timers := Some(after))) == c.(timers := Some(after));
  }
}
