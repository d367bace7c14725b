/** Waiting for the node object: a cache with a lifetime, and a retry loop with capped backoff. */
module NodeRetry {
  import opened Wrappers

  const SECOND := 1_000_000_000
  const MAX_STARTUP_RETRY_TIME := 300 * SECOND
  const INITIAL_RETRY_DELAY := SECOND
  const MAX_RETRY_DELAY := 30 * SECOND
  const NODE_CACHE_TTL := 300 * SECOND

  datatype Node = Node(name: string, addresses: seq<string>)
  datatype CachedNode = CachedNode(node: Node, fetchedAt: int)

  datatype Outcome = Found(node: Node) | TimedOut | Cancelled

  function Doubled(delay: int): int {
    if 2 * delay > MAX_RETRY_DELAY then MAX_RETRY_DELAY else 2 * delay
  }

  /** The delay after n retries. */
  function DelayAfter(n: nat): (r: int)
    ensures INITIAL_RETRY_DELAY <= r <= MAX_RETRY_DELAY
  {
    if n == 0 then INITIAL_RETRY_DELAY else Doubled(DelayAfter(n - 1))
  }

  /** The shortest time n waits can take. */
  function WaitedAfter(n: nat): int {
    if n == 0 then 0 else WaitedAfter(n - 1) + DelayAfter(n - 1)
  }

  /** From the sixth wait on the delay is the cap. */
  lemma {:induction false} CappedDelays(n: nat)
    requires n >= 5
    ensures DelayAfter(n) == 30 * SECOND && WaitedAfter(n) == (31 + 30 * (n - 5)) * SECOND
  {
    if n == 5 {
      assert DelayAfter(0) == SECOND && DelayAfter(1) == 2 * SECOND && DelayAfter(2) == 4 * SECOND;
      assert DelayAfter(3) == 8 * SECOND && DelayAfter(4) == 16 * SECOND && DelayAfter(5) == 30 * SECOND;
      assert WaitedAfter(1) == SECOND && WaitedAfter(2) == 3 * SECOND && WaitedAfter(3) == 7 * SECOND;
      assert WaitedAfter(4) == 15 * SECOND && WaitedAfter(5) == 31 * SECOND;
    } else {
      CappedDelays(n - 1);
    }
  }

  /** Fourteen waits pass the deadline; thirteen need not. */
  lemma DeadlineAfterFourteenWaits()
    ensures WaitedAfter(13) <= 300 * SECOND < WaitedAfter(14)
  {
    CappedDelays(13);
    CappedDelays(14);
  }

  lemma {:induction false} WaitedGrows(m: nat, n: nat)
    requires m <= n
    ensures WaitedAfter(m) <= WaitedAfter(n)
  {
    if m < n {
      WaitedGrows(m, n - 1);
    }
  }

  /** At least as much time has passed as n waits take. */
  ghost predicate Waited(start: int, now: int, n: nat) {
    now >= start + WaitedAfter(n)
  }

  lemma BeforeDeadline(start: int, before: int, now: int, n: nat)
    requires Waited(start, before, n) && before <= now <= start + MAX_STARTUP_RETRY_TIME
    ensures n < 14 && Waited(start, now, n)
  {
    DeadlineAfterFourteenWaits();
    if n >= 14 {
      WaitedGrows(14, n);
    }
  }

  lemma WaitedMore(start: int, before: int, now: int, n: nat)
    requires Waited(start, before, n) && now >= before + DelayAfter(n)
    ensures Waited(start, now, n + 1)
    ensures DelayAfter(n + 1) == Doubled(DelayAfter(n)) >= 0
  {
  }

  /** The delays of a run so far: one second, doubled each time, up to thirty. */
  ghost predicate Backoff(waits: seq<int>) {
    forall i :: 0 <= i < |waits| ==> waits[i] == DelayAfter(i)
  }

  lemma {:induction false} DelaysNeverShrink(i: nat, j: nat)
    requires i <= j
    ensures DelayAfter(i) <= DelayAfter(j)
  {
    if i < j {
      DelaysNeverShrink(i, j - 1);
    }
  }

  ghost predicate NeverShrinks(waits: seq<int>) {
    forall i, j :: 0 <= i <= j < |waits| ==> SECOND <= waits[i] <= waits[j] <= 30 * SECOND
  }

  /** Such delays stay between one second and thirty and never shrink. */
  lemma BackoffNeverShrinks(waits: seq<int>)
    requires Backoff(waits)
    ensures NeverShrinks(waits)
  {
    forall i, j | 0 <= i <= j < |waits| ensures waits[i] <= waits[j] {
      DelaysNeverShrink(i, j);
    }
  }

  lemma BackoffGrows(waits: seq<int>)
    requires Backoff(waits)
    ensures Backoff(waits + [DelayAfter(|waits|)])
  {
  }

  class NodeCache {
    var cache: map<string, CachedNode>
    const ttl: int

    constructor (ttl: int)
      ensures cache == map[] && this.ttl == ttl
    {
      cache := map[];
      this.ttl := ttl;
    }

    /** An expired entry is evicted, never returned. */
    method Get(name: string, now: int) returns (r: Option<Node>)
      modifies this`cache
      ensures r.Some? <==> name in old(cache) && now - old(cache)[name].fetchedAt <= ttl
      ensures r.Some? ==> r.value == old(cache)[name].node
      ensures cache == if r.Some? then old(cache) else old(cache) - {name}
    {
      if name !in cache {
        return None;
      }
      var cached := cache[name];
      if now - cached.fetchedAt > ttl {
        cache := cache - {name};
        return None;
      }
      return Some(cached.node);
    }

    method Set(name: string, node: Node, now: int)
      modifies this`cache
      ensures cache == old(cache)[name := CachedNode(node, now)]
    {
      cache := cache[name := CachedNode(node, now)];
    }
  }

  /** A read that ends the waiting at once. */
  predicate Useful(read: Option<Node>) {
    read.Some? && read.value.addresses != []
  }

  ghost predicate AllUseless(fetched: seq<Option<Node>>) {
    forall i :: 0 <= i < |fetched| ==> !Useful(fetched[i])
  }

  /** What may be returned after these reads and this many waits: the first useful read, or past the deadline
      the last read, a failed one as a timeout; or nothing, when the last wait was interrupted. Each read that
      did not end the matter was followed by a wait. */
  ghost predicate Answers(r: Outcome, fetched: seq<Option<Node>>, waits: nat, cancelled: bool, late: bool) {
    && fetched != []
    && (var n := |fetched| - 1;
        && AllUseless(fetched[..n])
        && match r
           case Found(node) => fetched[n] == Some(node) && (node.addresses != [] || late) && waits == n && !cancelled
           case TimedOut => fetched[n] == None && late && waits == n && !cancelled
           case Cancelled => !Useful(fetched[n]) && waits == n + 1 && cancelled)
  }

  lemma ReadAnswers(before: seq<Option<Node>>, read: Option<Node>, waits: nat, late: bool)
    requires AllUseless(before) && waits == |before| && (Useful(read) || late)
    ensures Answers(if read.Some? then Found(read.value) else TimedOut, before + [read], waits, false, late)
  {
    assert (before + [read])[..|before|] == before;
  }

  lemma ReadFails(before: seq<Option<Node>>, read: Option<Node>)
    requires AllUseless(before) && !Useful(read)
    ensures AllUseless(before + [read])
  {
  }

  lemma InterruptionAnswers(fetched: seq<Option<Node>>, late: bool)
    requires AllUseless(fetched) && fetched != []
    ensures Answers(Cancelled, fetched, |fetched|, true, late)
  {
  }

  class NodeReader {
    const nodeName: string
    const nodeCache: NodeCache
    /** The clock, which other activity may advance at any time, and whether the caller has given up. */
    var now: int
    var cancelled: bool
    /** What was read, and how long was to be waited in between. */
    ghost var fetched: seq<Option<Node>>
    ghost var waits: seq<int>

    constructor (nodeName: string, nodeCache: NodeCache, now: int)
      ensures this.nodeName == nodeName && this.nodeCache == nodeCache && this.now == now
      ensures !cancelled && fetched == [] && waits == []
    {
      this.nodeName, this.nodeCache, this.now := nodeName, nodeCache, now;
      cancelled, fetched, waits := false, [], [];
    }

    method Pass(least: int)
      requires least >= 0
      modifies this`now
      ensures now >= old(now) + least
    {
      var more: int := *;
      now := now + least + if more > 0 then more else 0;
    }

    /** One read of the API server: None when it fails. */
    method Get() returns (node: Option<Node>)
      modifies this`now, this`fetched
      ensures now >= old(now) && fetched == old(fetched) + [node]
    {
      Pass(0);
      node := *;
      fetched := fetched + [node];
    }

    /** time.After(delay) against the context: the delay elapses, unless the context ends first. */
    method Wait(delay: int)
      requires delay >= 0 && !cancelled
      modifies this`now, this`waits, this`cancelled
      ensures now >= old(now) && waits == old(waits) + [delay]
      ensures !cancelled ==> now >= old(now) + delay
    {
      waits := waits + [delay];
      cancelled := *;
      Pass(if cancelled then 0 else delay);
    }

    /** One turn before the wait: what the loop returns, if it does. */
    method TryOnce(deadline: int) returns (r: Option<Outcome>, ghost read: Option<Node>)
      modifies this`now, this`fetched
      ensures now >= old(now) && fetched == old(fetched) + [read]
      ensures r.None? <==> now <= deadline && !Useful(read)
      ensures r.Some? ==> r.value == if read.Some? then Found(read.value) else TimedOut
    {
      var node := Get();
      read := node;
      if node.None? {
        r := if now > deadline then Some(TimedOut) else None;
      } else {
        r := if node.value.addresses != [] || now > deadline then Some(Found(node.value)) else None;
      }
    }

    /** The retry loop. */
    method AwaitNode() returns (r: Outcome)
      requires fetched == [] && waits == [] && !cancelled
      modifies this`now, this`fetched, this`waits, this`cancelled
      ensures 0 < |fetched| <= 15 && |waits| <= 14
      ensures Backoff(waits) && NeverShrinks(waits)
      ensures Answers(r, fetched, |waits|, cancelled, now > old(now) + 300 * SECOND)
    {
      var delay := INITIAL_RETRY_DELAY;
      var deadline := now + MAX_STARTUP_RETRY_TIME;
      assert AllUseless(fetched) && Backoff(waits) && Waited(now, now, 0) && DelayAfter(0) == INITIAL_RETRY_DELAY;
      hide DelayAfter, Waited, Backoff, NeverShrinks, Doubled, AllUseless, Useful, Answers;
      while true
        invariant |fetched| == |waits| <= 14 && !cancelled
        invariant AllUseless(fetched)
        invariant delay == DelayAfter(|fetched|) && 0 <= delay
        invariant Waited(old(now), now, |fetched|)
        invariant Backoff(waits)
        decreases 15 - |fetched|
      {
        ghost var n, before, earlier := |fetched|, now, fetched;
        BackoffNeverShrinks(waits);
        var outcome;
        ghost var read;
        outcome, read := TryOnce(deadline);
        if outcome.Some? {
          ReadAnswers(earlier, read, |waits|, now > deadline);
          return outcome.value;
        }
        ReadFails(earlier, read);
        BeforeDeadline(old(now), before, now, n);
        BackoffGrows(waits);
        before := now;
        Wait(delay);
        BackoffNeverShrinks(waits);
        if cancelled {
          InterruptionAnswers(fetched, now > deadline);
          return Cancelled;
        }
        WaitedMore(old(now), before, now, n);
        delay := Doubled(delay);
      }
    }

    /** getNodeWithRetry. A fresh cache entry is returned without a read. Otherwise it ends after at most fifteen
        reads; the waits start at one second, never shrink and never exceed thirty; the first node with
        addresses is returned, or after the deadline any node; and giving up happens only after the deadline or
        when a wait is interrupted. */
    method GetNodeWithRetry() returns (r: Outcome)
      requires nodeCache.ttl == NODE_CACHE_TTL && fetched == [] && waits == [] && !cancelled
      modifies this`now, this`fetched, this`waits, this`cancelled, nodeCache`cache
      ensures |fetched| <= 15 && |waits| <= 14
      ensures Backoff(waits) && NeverShrinks(waits)
      ensures fetched == [] <==>
        nodeName in old(nodeCache.cache) && old(now) - old(nodeCache.cache)[nodeName].fetchedAt <= 300 * SECOND
      ensures fetched == [] ==> r == Found(old(nodeCache.cache)[nodeName].node) && nodeCache.cache == old(nodeCache.cache)
      ensures fetched != [] ==>
        && Answers(r, fetched, |waits|, cancelled, now > old(now) + 300 * SECOND)
        && nodeCache.cache == if r.Found? then old(nodeCache.cache)[nodeName := CachedNode(r.node, now)]
                              else old(nodeCache.cache) - {nodeName}
    {
      hide DelayAfter;
      assert Backoff(waits);
      var cached := nodeCache.Get(nodeName, now);
      if cached.Some? {
        return Found(cached.value);
      }
      r := AwaitNode();
      if r.Found? {
        nodeCache.Set(nodeName, r.node, now);
      }
    }
  }
}
