/** The RIB part of the node status: which routes are reported, and to whom they are advertised. */
module RibReport {
  import opened Wrappers
  import opened Sorting
  import opened StatusComparison

  const MAX_LOCAL_ROUTES := 500
  const MAX_RECEIVED_ROUTES := 100
  const MAX_ADVERTISED_TO := 16
  const ESTABLISHED := "Established"

  datatype Path = Path(nexthopInvalid: bool, isNetlink: bool, best: bool, neighborIp: string)
  datatype Destination = Destination(prefix: string, paths: seq<Path>)

  // ---- which routes ----

  function LocalRoute(prefix: string): RibRoute {
    RibRoute(prefix, "0.0.0.0", "", [], 0, [])
  }

  function ReceivedRoute(prefix: string, path: Path): RibRoute {
    RibRoute(prefix, path.neighborIp, path.neighborIp, [], 0, [])
  }

  /** A usable path is local when it comes from netlink, best or not, or is the best one and no peer sent it. */
  predicate IsLocal(p: Path) {
    !p.nexthopInvalid && (p.isNetlink || (p.best && p.neighborIp == ""))
  }

  predicate IsReceived(p: Path) {
    !p.nexthopInvalid && !p.isNetlink && p.best && p.neighborIp != ""
  }

  function LocalOf(prefix: string, paths: seq<Path>): seq<RibRoute> {
    if paths == [] then []
    else LocalOf(prefix, paths[..|paths| - 1]) + if IsLocal(paths[|paths| - 1]) then [LocalRoute(prefix)] else []
  }

  function ReceivedOf(prefix: string, paths: seq<Path>): seq<RibRoute> {
    if paths == [] then []
    else
      var p := paths[|paths| - 1];
      ReceivedOf(prefix, paths[..|paths| - 1]) + if IsReceived(p) then [ReceivedRoute(prefix, p)] else []
  }

  function LocalRoutes(table: seq<Option<Destination>>): seq<RibRoute> {
    if table == [] then []
    else
      var d := table[|table| - 1];
      LocalRoutes(table[..|table| - 1]) + if d.Some? then LocalOf(d.value.prefix, d.value.paths) else []
  }

  function ReceivedRoutes(table: seq<Option<Destination>>): seq<RibRoute> {
    if table == [] then []
    else
      var d := table[|table| - 1];
      ReceivedRoutes(table[..|table| - 1]) + if d.Some? then ReceivedOf(d.value.prefix, d.value.paths) else []
  }

  // ---- which paths become which routes ----

  function PathAt(table: seq<Option<Destination>>, i: nat, j: nat): Option<Path> {
    if i < |table| && table[i].Some? && j < |table[i].value.paths| then Some(table[i].value.paths[j]) else None
  }

  predicate Earlier(a: (nat, nat), b: (nat, nat)) {
    a.0 < b.0 || (a.0 == b.0 && a.1 < b.1)
  }

  /** The positions, destination first, of the paths that are picked, in table order. */
  ghost predicate AreAt(at: seq<(nat, nat)>, table: seq<Option<Destination>>, picks: Path -> bool) {
    && (forall i: nat, j: nat :: (i, j) in at <==> PathAt(table, i, j).Some? && picks(PathAt(table, i, j).value))
    && InOrder(at)
  }

  ghost predicate InOrder(at: seq<(nat, nat)>) {
    forall k, l :: 0 <= k < l < |at| ==> Earlier(at[k], at[l])
  }

  function PositionsIn(i: nat, paths: seq<Path>, picks: Path -> bool): seq<(nat, nat)> {
    if paths == [] then []
    else
      var n := |paths| - 1;
      PositionsIn(i, paths[..n], picks) + if picks(paths[n]) then [(i, n)] else []
  }

  function Positions(table: seq<Option<Destination>>, picks: Path -> bool): seq<(nat, nat)> {
    if table == [] then []
    else
      var n := |table| - 1;
      Positions(table[..n], picks) + if table[n].Some? then PositionsIn(n, table[n].value.paths, picks) else []
  }

  lemma {:induction false} PositionsInAre(i: nat, paths: seq<Path>, picks: Path -> bool)
    ensures forall h: nat, j: nat :: (h, j) in PositionsIn(i, paths, picks) <==> h == i && j < |paths| && picks(paths[j])
    ensures InOrder(PositionsIn(i, paths, picks))
  {
    if paths != [] {
      var n := |paths| - 1;
      PositionsInAre(i, paths[..n], picks);
      var at := PositionsIn(i, paths[..n], picks);
      var more := if picks(paths[n]) then [(i, n)] else [];
      LaterAppended(at, more);
      assert forall j: nat :: j < n ==> paths[..n][j] == paths[j];
    }
  }

  lemma LaterAppended(at: seq<(nat, nat)>, more: seq<(nat, nat)>)
    requires InOrder(at) && InOrder(more)
    requires forall p, q :: p in at && q in more ==> Earlier(p, q)
    ensures InOrder(at + more)
    ensures forall i: nat, j: nat :: (i, j) in at + more <==> (i, j) in at || (i, j) in more
  {
    forall k, l | 0 <= k < l < |at + more| ensures Earlier((at + more)[k], (at + more)[l]) {
      if k < |at| <= l {
        assert at[k] in at && more[l - |at|] in more;
      }
    }
  }

  lemma PathAtInit(table: seq<Option<Destination>>, i: nat, j: nat)
    requires table != []
    ensures var n := |table| - 1;
      PathAt(table, i, j) == if i != n then PathAt(table[..n], i, j)
                             else if table[n].Some? && j < |table[n].value.paths| then Some(table[n].value.paths[j]) else None
  {
  }

  lemma {:induction false} PositionsAre(table: seq<Option<Destination>>, picks: Path -> bool)
    ensures AreAt(Positions(table, picks), table, picks)
  {
    if table != [] {
      var n := |table| - 1;
      PositionsAre(table[..n], picks);
      var at := Positions(table[..n], picks);
      var more := if table[n].Some? then PositionsIn(n, table[n].value.paths, picks) else [];
      if table[n].Some? {
        PositionsInAre(n, table[n].value.paths, picks);
      }
      forall p, q | p in at && q in more ensures Earlier(p, q) {
        assert (p.0, p.1) in at && (q.0, q.1) in more;
      }
      LaterAppended(at, more);
      forall i: nat, j: nat ensures (i, j) in at + more <==> PathAt(table, i, j).Some? && picks(PathAt(table, i, j).value) {
        PathAtInit(table, i, j);
      }
    }
  }

  lemma {:induction false} LocalOfAre(i: nat, d: Destination, n: nat, picks: Path -> bool)
    requires n <= |d.paths| && forall p :: picks(p) == IsLocal(p)
    ensures var at, routes := PositionsIn(i, d.paths[..n], picks), LocalOf(d.prefix, d.paths[..n]);
      |at| == |routes| && forall k :: 0 <= k < |at| ==> at[k].0 == i && routes[k] == RibRoute(d.prefix, "0.0.0.0", "", [], 0, [])
  {
    if n > 0 {
      LocalOfAre(i, d, n - 1, picks);
      assert d.paths[..n][..n - 1] == d.paths[..n - 1];
    }
  }

  lemma {:induction false} ReceivedOfAre(i: nat, d: Destination, n: nat, picks: Path -> bool)
    requires n <= |d.paths| && forall p :: picks(p) == IsReceived(p)
    ensures var at, routes := PositionsIn(i, d.paths[..n], picks), ReceivedOf(d.prefix, d.paths[..n]);
      && |at| == |routes|
      && forall k :: 0 <= k < |at| ==>
           && at[k].0 == i && at[k].1 < n
           && var ip := d.paths[at[k].1].neighborIp; routes[k] == RibRoute(d.prefix, ip, ip, [], 0, [])
  {
    if n > 0 {
      ReceivedOfAre(i, d, n - 1, picks);
      assert d.paths[..n][..n - 1] == d.paths[..n - 1];
    }
  }

  /** What is reported at the positions: a route of the destination's prefix, from nobody or from the neighbor. */
  ghost predicate ReportedAt(routes: seq<RibRoute>, at: seq<(nat, nat)>, table: seq<Option<Destination>>, received: bool) {
    && |routes| == |at|
    && forall k :: 0 <= k < |at| ==>
         var i, j := at[k].0, at[k].1;
         && i < |table| && table[i].Some? && j < |table[i].value.paths|
         && var ip := table[i].value.paths[j].neighborIp;
            routes[k] == if received then RibRoute(table[i].value.prefix, ip, ip, [], 0, [])
                         else RibRoute(table[i].value.prefix, "0.0.0.0", "", [], 0, [])
  }

  lemma ReportedInside(routes: seq<RibRoute>, at: seq<(nat, nat)>, table: seq<Option<Destination>>, more: Option<Destination>, received: bool)
    requires ReportedAt(routes, at, table, received)
    ensures ReportedAt(routes, at, table + [more], received)
  {
  }

  lemma ReportedAppended(routes: seq<RibRoute>, at: seq<(nat, nat)>, routes': seq<RibRoute>, at': seq<(nat, nat)>,
                         table: seq<Option<Destination>>, received: bool)
    requires ReportedAt(routes, at, table, received) && ReportedAt(routes', at', table, received)
    ensures ReportedAt(routes + routes', at + at', table, received)
  {
  }

  lemma {:induction false} LocalReportedAt(table: seq<Option<Destination>>, picks: Path -> bool)
    requires forall p :: picks(p) == IsLocal(p)
    ensures ReportedAt(LocalRoutes(table), Positions(table, picks), table, false)
  {
    if table != [] {
      var n := |table| - 1;
      LocalReportedAt(table[..n], picks);
      assert table == table[..n] + [table[n]];
      ReportedInside(LocalRoutes(table[..n]), Positions(table[..n], picks), table[..n], table[n], false);
      if table[n].Some? {
        var d := table[n].value;
        LocalOfAre(n, d, |d.paths|, picks);
        assert d.paths[..|d.paths|] == d.paths;
        PositionsInAre(n, d.paths, picks);
        var at, routes := PositionsIn(n, d.paths, picks), LocalOf(d.prefix, d.paths);
        assert forall k :: 0 <= k < |at| ==> (at[k].0, at[k].1) in at;
        ReportedAppended(LocalRoutes(table[..n]), Positions(table[..n], picks), routes, at, table, false);
      }
    }
  }

  lemma {:induction false} ReceivedReportedAt(table: seq<Option<Destination>>, picks: Path -> bool)
    requires forall p :: picks(p) == IsReceived(p)
    ensures ReportedAt(ReceivedRoutes(table), Positions(table, picks), table, true)
  {
    if table != [] {
      var n := |table| - 1;
      ReceivedReportedAt(table[..n], picks);
      assert table == table[..n] + [table[n]];
      ReportedInside(ReceivedRoutes(table[..n]), Positions(table[..n], picks), table[..n], table[n], true);
      if table[n].Some? {
        var d := table[n].value;
        ReceivedOfAre(n, d, |d.paths|, picks);
        assert d.paths[..|d.paths|] == d.paths;
        var at, routes := PositionsIn(n, d.paths, picks), ReceivedOf(d.prefix, d.paths);
        ReportedAppended(ReceivedRoutes(table[..n]), Positions(table[..n], picks), routes, at, table, true);
      }
    }
  }

  /** One local route for each usable path that came from netlink, or that is the best one and was sent by no
      peer; in table order, and for no other path. */
  lemma LocalRoutesAre(table: seq<Option<Destination>>) returns (at: seq<(nat, nat)>)
    ensures AreAt(at, table, (p: Path) => !p.nexthopInvalid && (p.isNetlink || (p.best && p.neighborIp == "")))
    ensures ReportedAt(LocalRoutes(table), at, table, false)
  {
    var picks := (p: Path) => !p.nexthopInvalid && (p.isNetlink || (p.best && p.neighborIp == ""));
    at := Positions(table, picks);
    PositionsAre(table, picks);
    LocalReportedAt(table, picks);
  }

  /** One received route for each usable best path that a peer sent and that did not come from netlink. */
  lemma ReceivedRoutesAre(table: seq<Option<Destination>>) returns (at: seq<(nat, nat)>)
    ensures AreAt(at, table, (p: Path) => !p.nexthopInvalid && !p.isNetlink && p.best && p.neighborIp != "")
    ensures ReportedAt(ReceivedRoutes(table), at, table, true)
  {
    var picks := (p: Path) => !p.nexthopInvalid && !p.isNetlink && p.best && p.neighborIp != "";
    at := Positions(table, picks);
    PositionsAre(table, picks);
    ReceivedReportedAt(table, picks);
  }

  ghost predicate Unadvertised(routes: seq<RibRoute>) {
    forall i :: 0 <= i < |routes| ==> routes[i].advertisedTo == [] && routes[i].advertisedToCount == 0
  }

  lemma {:induction false} LocalOfIsUnadvertised(prefix: string, paths: seq<Path>)
    ensures Unadvertised(LocalOf(prefix, paths))
  {
    if paths != [] {
      LocalOfIsUnadvertised(prefix, paths[..|paths| - 1]);
    }
  }

  lemma {:induction false} LocalRoutesAreUnadvertised(table: seq<Option<Destination>>)
    ensures Unadvertised(LocalRoutes(table))
  {
    if table != [] {
      var d := table[|table| - 1];
      LocalRoutesAreUnadvertised(table[..|table| - 1]);
      if d.Some? {
        LocalOfIsUnadvertised(d.value.prefix, d.value.paths);
      }
    }
  }

  /** The classification of one destination's paths. */
  method ClassifyPaths(d: Destination) returns (local: seq<RibRoute>, received: seq<RibRoute>)
    ensures local == LocalOf(d.prefix, d.paths) && received == ReceivedOf(d.prefix, d.paths)
  {
    local, received := [], [];
    for i := 0 to |d.paths|
      invariant local == LocalOf(d.prefix, d.paths[..i]) && received == ReceivedOf(d.prefix, d.paths[..i])
    {
      var p := d.paths[i];
      assert d.paths[..i + 1][..i] == d.paths[..i];
      if p.nexthopInvalid {
        continue;
      }
      if p.isNetlink {
        local := local + [LocalRoute(d.prefix)];
        continue;
      }
      if !p.best {
        continue;
      }
      if p.neighborIp == "" {
        local := local + [LocalRoute(d.prefix)];
      } else {
        received := received + [ReceivedRoute(d.prefix, p)];
      }
    }
    assert d.paths[..|d.paths|] == d.paths;
  }

  method ClassifyTable(table: seq<Option<Destination>>) returns (local: seq<RibRoute>, received: seq<RibRoute>)
    ensures local == LocalRoutes(table) && received == ReceivedRoutes(table)
  {
    local, received := [], [];
    for i := 0 to |table|
      invariant local == LocalRoutes(table[..i]) && received == ReceivedRoutes(table[..i])
    {
      assert table[..i + 1][..i] == table[..i];
      if table[i].Some? {
        var l, r := ClassifyPaths(table[i].value);
        local, received := local + l, received + r;
      }
    }
    assert table[..|table|] == table;
  }

  // ---- to whom ----

  predicate Advertises(n: NeighborStatus, prefix: string, adjOut: string -> set<string>) {
    n.state == ESTABLISHED && prefix in adjOut(n.address)
  }

  /** The addresses of the neighbors to which a prefix is advertised, in the order of the list. */
  function Holders(ns: seq<NeighborStatus>, prefix: string, adjOut: string -> set<string>): seq<string> {
    if ns == [] then []
    else
      var n := ns[|ns| - 1];
      Holders(ns[..|ns| - 1], prefix, adjOut) + if Advertises(n, prefix, adjOut) then [n.address] else []
  }

  function Capped(addresses: seq<string>): seq<string> {
    if |addresses| <= MAX_ADVERTISED_TO then addresses else addresses[..MAX_ADVERTISED_TO]
  }

  /** The local route that carries the advertisement of its prefix: the last one of that prefix. */
  ghost predicate IsLast(routes: seq<RibRoute>, i: nat)
    requires i < |routes|
  {
    forall j :: i < j < |routes| ==> routes[j].prefix != routes[i].prefix
  }

  /** h lists, in address order, exactly the established neighbors whose adj-out holds the prefix. */
  ghost predicate IsAdvertisers(h: seq<string>, ns: seq<NeighborStatus>, prefix: string, adjOut: string -> set<string>) {
    Sorted(h, (s: string) => s) && multiset(h) == multiset(Holders(ns, prefix, adjOut))
  }

  /** How a local route is reported: with all its advertisers counted and the first sixteen of them named,
      or, for an earlier route of a repeated prefix, with none. */
  ghost predicate RouteReported(r: RibRoute, routes: seq<RibRoute>, i: nat, ns: seq<NeighborStatus>, adjOut: string -> set<string>)
    requires i < |routes|
  {
    if IsLast(routes, i) then
      exists h :: IsAdvertisers(h, ns, routes[i].prefix, adjOut) &&
                  r == routes[i].(advertisedTo := Capped(h), advertisedToCount := |h|)
    else r == routes[i]
  }

  lemma {:induction false} HoldersConcat(a: seq<NeighborStatus>, b: seq<NeighborStatus>, prefix: string, adjOut: string -> set<string>)
    ensures Holders(a + b, prefix, adjOut) == Holders(a, prefix, adjOut) + Holders(b, prefix, adjOut)
  {
    if b == [] {
      assert a + b == a;
    } else {
      var n := |b| - 1;
      assert (a + b)[..|a + b| - 1] == a + b[..n];
      HoldersConcat(a, b[..n], prefix, adjOut);
    }
  }

  lemma HoldersWithout(ns: seq<NeighborStatus>, j: nat, prefix: string, adjOut: string -> set<string>)
    requires j < |ns|
    ensures multiset(Holders(ns, prefix, adjOut))
            == multiset(Holders(ns[..j] + ns[j + 1..], prefix, adjOut)) + multiset(Holders([ns[j]], prefix, adjOut))
  {
    assert ns == ns[..j] + ([ns[j]] + ns[j + 1..]);
    HoldersConcat(ns[..j], [ns[j]] + ns[j + 1..], prefix, adjOut);
    HoldersConcat([ns[j]], ns[j + 1..], prefix, adjOut);
    HoldersConcat(ns[..j], ns[j + 1..], prefix, adjOut);
  }

  /** Listing the neighbors in another order permutes the holders. */
  lemma {:induction false} HoldersPermuted(a: seq<NeighborStatus>, b: seq<NeighborStatus>, prefix: string, adjOut: string -> set<string>)
    requires multiset(a) == multiset(b)
    ensures multiset(Holders(a, prefix, adjOut)) == multiset(Holders(b, prefix, adjOut))
  {
    hide Holders;
    if a == [] {
      assert |multiset(b)| == 0;
      assert a == b;
    } else {
      var j := Drawn(a, b);
      HoldersPermuted(a[1..], b[..j] + b[j + 1..], prefix, adjOut);
      HoldersWithout(b, j, prefix, adjOut);
      HoldersWithout(a, 0, prefix, adjOut);
      assert a[..0] + a[1..] == a[1..];
    }
  }

  lemma {:induction false} HoldersAreListed(ns: seq<NeighborStatus>, prefix: string, adjOut: string -> set<string>, x: string)
    requires x in Holders(ns, prefix, adjOut)
    ensures exists j :: 0 <= j < |ns| && ns[j].address == x
  {
    var n := |ns| - 1;
    if x in Holders(ns[..n], prefix, adjOut) {
      HoldersAreListed(ns[..n], prefix, adjOut, x);
      var j :| 0 <= j < n && ns[..n][j].address == x;
      assert ns[j].address == x;
    } else {
      assert ns[n].address == x;
    }
  }

  /** Holders come out in address order when the neighbors are in address order. */
  lemma {:induction false} HoldersAreSorted(ns: seq<NeighborStatus>, prefix: string, adjOut: string -> set<string>)
    requires Sorted(ns, (n: NeighborStatus) => n.address)
    ensures Sorted(Holders(ns, prefix, adjOut), (s: string) => s)
  {
    if ns != [] {
      var n := |ns| - 1;
      HoldersAreSorted(ns[..n], prefix, adjOut);
      var before := Holders(ns[..n], prefix, adjOut);
      forall i | 0 <= i < |before| ensures !Text.Less(ns[n].address, before[i]) {
        HoldersAreListed(ns[..n], prefix, adjOut, before[i]);
        var j :| 0 <= j < n && ns[..n][j].address == before[i];
        assert !Text.Less(ns[n].address, ns[j].address);
      }
    }
  }

  /** The report of a route does not depend on the order in which the neighbors were listed, whether or not
      their addresses are distinct. */
  lemma ReportIsDetermined(r: RibRoute, s: RibRoute, routes: seq<RibRoute>, i: nat,
                           a: seq<NeighborStatus>, b: seq<NeighborStatus>, adjOut: string -> set<string>)
    requires i < |routes| && multiset(a) == multiset(b)
    requires RouteReported(r, routes, i, a, adjOut) && RouteReported(s, routes, i, b, adjOut)
    ensures r == s
  {
    if IsLast(routes, i) {
      var prefix := routes[i].prefix;
      var g :| IsAdvertisers(g, a, prefix, adjOut) && r == routes[i].(advertisedTo := Capped(g), advertisedToCount := |g|);
      var h :| IsAdvertisers(h, b, prefix, adjOut) && s == routes[i].(advertisedTo := Capped(h), advertisedToCount := |h|);
      HoldersPermuted(a, b, prefix, adjOut);
      SortedIsUnique(g, h, (s: string) => s);
    }
  }

  /** The count is the number of neighbors that advertise the prefix. */
  lemma {:induction false} HoldersCount(ns: seq<NeighborStatus>, prefix: string, adjOut: string -> set<string>)
    ensures |Holders(ns, prefix, adjOut)| == |set j | 0 <= j < |ns| && Advertises(ns[j], prefix, adjOut)|
  {
    if ns != [] {
      var n := |ns| - 1;
      HoldersCount(ns[..n], prefix, adjOut);
      var all := set j | 0 <= j < |ns| && Advertises(ns[j], prefix, adjOut);
      var rest := set j | 0 <= j < n && Advertises(ns[..n][j], prefix, adjOut);
      if Advertises(ns[n], prefix, adjOut) {
        assert all == rest + {n};
      } else {
        assert all == rest;
      }
    }
  }

  lemma {:induction false} HoldersAdvertise(ns: seq<NeighborStatus>, prefix: string, adjOut: string -> set<string>, x: string)
    ensures x in Holders(ns, prefix, adjOut) <==>
            exists j :: 0 <= j < |ns| && ns[j].address == x && Advertises(ns[j], prefix, adjOut)
  {
    if ns != [] {
      var n := |ns| - 1;
      HoldersAdvertise(ns[..n], prefix, adjOut, x);
      assert forall j :: 0 <= j < n ==> ns[..n][j] == ns[j];
    }
  }

  /** For the last route of a prefix the reported count is exactly the number of established neighbors whose
      adj-out holds it. The reported addresses, in order, are those of such neighbors; there are as many as the
      cap allows, and none that is left out precedes one that is listed. */
  lemma ReportCountsNeighbors(r: RibRoute, routes: seq<RibRoute>, i: nat, ns: seq<NeighborStatus>, adjOut: string -> set<string>)
    requires i < |routes| && IsLast(routes, i) && RouteReported(r, routes, i, ns, adjOut)
    ensures forall j :: 0 <= j < |ns| ==>
              (Advertises(ns[j], routes[i].prefix, adjOut) <==> ns[j].state == "Established" && routes[i].prefix in adjOut(ns[j].address))
    ensures r.advertisedToCount == |set j | 0 <= j < |ns| && Advertises(ns[j], routes[i].prefix, adjOut)|
    ensures |r.advertisedTo| == if r.advertisedToCount < 16 then r.advertisedToCount else 16
    ensures Sorted(r.advertisedTo, (s: string) => s)
    ensures forall x :: x in r.advertisedTo ==> exists j :: 0 <= j < |ns| && ns[j].address == x && Advertises(ns[j], routes[i].prefix, adjOut)
    ensures forall j, x :: 0 <= j < |ns| && Advertises(ns[j], routes[i].prefix, adjOut) && ns[j].address !in r.advertisedTo && x in r.advertisedTo ==>
              !Text.Less(ns[j].address, x)
  {
    hide IsLast, Holders, Advertises;
    AdvertisesWhen(ns, routes[i].prefix, adjOut);
    var prefix := routes[i].prefix;
    var h :| IsAdvertisers(h, ns, prefix, adjOut) && r == routes[i].(advertisedTo := Capped(h), advertisedToCount := |h|);
    AdvertisersCount(h, ns, prefix, adjOut);
    AdvertisersCapped(h, ns, prefix, adjOut);
  }

  lemma AdvertisesWhen(ns: seq<NeighborStatus>, prefix: string, adjOut: string -> set<string>)
    ensures forall j :: 0 <= j < |ns| ==>
              (Advertises(ns[j], prefix, adjOut) <==> ns[j].state == "Established" && prefix in adjOut(ns[j].address))
  {
  }

  lemma AdvertisersCount(h: seq<string>, ns: seq<NeighborStatus>, prefix: string, adjOut: string -> set<string>)
    requires IsAdvertisers(h, ns, prefix, adjOut)
    ensures |h| == |set j | 0 <= j < |ns| && Advertises(ns[j], prefix, adjOut)|
  {
    HoldersCount(ns, prefix, adjOut);
    assert |multiset(h)| == |h| && |multiset(Holders(ns, prefix, adjOut))| == |Holders(ns, prefix, adjOut)|;
  }

  lemma AdvertisersAre(h: seq<string>, ns: seq<NeighborStatus>, prefix: string, adjOut: string -> set<string>, x: string)
    requires IsAdvertisers(h, ns, prefix, adjOut)
    ensures x in h <==> exists j :: 0 <= j < |ns| && ns[j].address == x && Advertises(ns[j], prefix, adjOut)
  {
    assert x in h <==> x in multiset(h);
    HoldersAdvertise(ns, prefix, adjOut, x);
  }

  lemma AdvertisersCapped(h: seq<string>, ns: seq<NeighborStatus>, prefix: string, adjOut: string -> set<string>)
    requires IsAdvertisers(h, ns, prefix, adjOut)
    ensures Sorted(Capped(h), (s: string) => s)
    ensures forall x :: x in Capped(h) ==> exists j :: 0 <= j < |ns| && ns[j].address == x && Advertises(ns[j], prefix, adjOut)
    ensures forall j, x :: 0 <= j < |ns| && Advertises(ns[j], prefix, adjOut) && ns[j].address !in Capped(h) && x in Capped(h) ==>
              !Text.Less(ns[j].address, x)
  {
    hide Holders, Advertises;
    forall x | x in Capped(h) ensures exists j :: 0 <= j < |ns| && ns[j].address == x && Advertises(ns[j], prefix, adjOut) {
      AdvertisersAre(h, ns, prefix, adjOut, x);
    }
    forall j, x | 0 <= j < |ns| && Advertises(ns[j], prefix, adjOut) && ns[j].address !in Capped(h) && x in Capped(h)
      ensures !Text.Less(ns[j].address, x) {
      AdvertisersAre(h, ns, prefix, adjOut, ns[j].address);
      LeftOutComesAfter(h, ns[j].address, x);
    }
  }

  lemma LeftOutComesAfter(h: seq<string>, out: string, x: string)
    requires Sorted(h, (s: string) => s) && out in h && out !in Capped(h) && x in Capped(h)
    ensures !Text.Less(out, x)
  {
    var p :| 0 <= p < |Capped(h)| && Capped(h)[p] == x;
    var q :| 0 <= q < |h| && h[q] == out;
    assert h[p] == x && q >= |Capped(h)|;
  }

  // ---- the collection ----

  /** Which prefix sits at which index: the last one. */
  ghost predicate IsIndex(index: map<string, nat>, routes: seq<RibRoute>) {
    && (forall p :: p in index ==> index[p] < |routes| && routes[index[p]].prefix == p && IsLast(routes, index[p]))
    && (forall i :: 0 <= i < |routes| ==> routes[i].prefix in index)
  }

  method IndexByPrefix(routes: seq<RibRoute>) returns (index: map<string, nat>)
    ensures IsIndex(index, routes)
  {
    index := map[];
    for i := 0 to |routes|
      invariant forall p :: p in index ==>
        index[p] < i && routes[index[p]].prefix == p && forall j :: index[p] < j < i ==> routes[j].prefix != p
      invariant forall j :: 0 <= j < i ==> routes[j].prefix in index
    {
      index := index[routes[i].prefix := i];
    }
  }

  /** A route and its count, after one more neighbor. */
  function Noted(r: RibRoute, address: string): RibRoute {
    if |r.advertisedTo| < MAX_ADVERTISED_TO then r.(advertisedTo := r.advertisedTo + [address]) else r
  }

  predicate Hit(index: map<string, nat>, i: nat, prefix: string, prefixes: set<string>) {
    prefix in prefixes && prefix in index && index[prefix] == i
  }

  /** One neighbor's adj-out, in whatever order the map yields it. */
  method NoteAdjOut(routes: array<RibRoute>, counts: array<nat>, index: map<string, nat>, address: string, prefixes: set<string>)
    requires routes.Length == counts.Length
    requires forall p :: p in index ==> index[p] < routes.Length && routes[index[p]].prefix == p
    modifies routes, counts
    ensures forall i :: 0 <= i < routes.Length ==>
      routes[i] == if Hit(index, i, old(routes[i]).prefix, prefixes) then Noted(old(routes[i]), address) else old(routes[i])
    ensures forall i :: 0 <= i < routes.Length ==>
      counts[i] == old(counts[i]) + if Hit(index, i, old(routes[i]).prefix, prefixes) then 1 else 0
  {
    var todo := prefixes;
    while todo != {}
      invariant todo <= prefixes
      invariant forall i :: 0 <= i < routes.Length ==>
        routes[i] == if Hit(index, i, old(routes[i]).prefix, prefixes - todo) then Noted(old(routes[i]), address) else old(routes[i])
      invariant forall i :: 0 <= i < routes.Length ==>
        counts[i] == old(counts[i]) + if Hit(index, i, old(routes[i]).prefix, prefixes - todo) then 1 else 0
    {
      var prefix :| prefix in todo;
      todo := todo - {prefix};
      if prefix in index {
        var idx := index[prefix];
        counts[idx] := counts[idx] + 1;
        if |routes[idx].advertisedTo| < MAX_ADVERTISED_TO {
          routes[idx] := routes[idx].(advertisedTo := routes[idx].advertisedTo + [address]);
        }
      }
    }
    assert prefixes - todo == prefixes;
  }

  lemma CappedGrows(h: seq<string>, r: RibRoute, address: string)
    requires r.advertisedTo == Capped(h)
    ensures Noted(r, address) == r.(advertisedTo := Capped(h + [address]))
  {
    if |h| >= MAX_ADVERTISED_TO {
      assert (h + [address])[..MAX_ADVERTISED_TO] == h[..MAX_ADVERTISED_TO];
    }
  }

  /** A route and its count after the neighbors of ns. */
  ghost predicate Progress(r: RibRoute, count: nat, route: RibRoute, last: bool, ns: seq<NeighborStatus>, adjOut: string -> set<string>) {
    var h := if last then Holders(ns, route.prefix, adjOut) else [];
    r == route.(advertisedTo := Capped(h)) && count == |h|
  }

  lemma ProgressStep(r: RibRoute, count: nat, route: RibRoute, last: bool, ns: seq<NeighborStatus>, k: nat, adjOut: string -> set<string>)
    requires k < |ns| && Progress(r, count, route, last, ns[..k], adjOut)
    ensures var hit := last && Advertises(ns[k], route.prefix, adjOut);
      Progress(if hit then Noted(r, ns[k].address) else r, count + if hit then 1 else 0, route, last, ns[..k + 1], adjOut)
  {
    assert ns[..k + 1][..k] == ns[..k];
    if last {
      CappedGrows(Holders(ns[..k], route.prefix, adjOut), r, ns[k].address);
    }
  }

  ghost predicate AllProgress(routes: seq<RibRoute>, counts: seq<nat>, original: seq<RibRoute>, ns: seq<NeighborStatus>,
                              adjOut: string -> set<string>) {
    && |routes| == |counts| == |original|
    && forall i :: 0 <= i < |original| ==> Progress(routes[i], counts[i], original[i], IsLast(original, i), ns, adjOut)
  }

  lemma AllProgressStep(routes: seq<RibRoute>, counts: seq<nat>, after: seq<RibRoute>, countsAfter: seq<nat>, original: seq<RibRoute>,
                        ns: seq<NeighborStatus>, k: nat, adjOut: string -> set<string>, index: map<string, nat>, prefixes: set<string>)
    requires k < |ns| && AllProgress(routes, counts, original, ns[..k], adjOut) && IsIndex(index, original)
    requires |after| == |routes| && |countsAfter| == |counts|
    requires prefixes == if ns[k].state == ESTABLISHED then adjOut(ns[k].address) else {}
    requires forall i :: 0 <= i < |routes| ==>
      after[i] == if Hit(index, i, routes[i].prefix, prefixes) then Noted(routes[i], ns[k].address) else routes[i]
    requires forall i :: 0 <= i < |routes| ==>
      countsAfter[i] == counts[i] + if Hit(index, i, routes[i].prefix, prefixes) then 1 else 0
    ensures AllProgress(after, countsAfter, original, ns[..k + 1], adjOut)
  {
    forall i | 0 <= i < |original|
      ensures Progress(after[i], countsAfter[i], original[i], IsLast(original, i), ns[..k + 1], adjOut) {
      ProgressStep(routes[i], counts[i], original[i], IsLast(original, i), ns, k, adjOut);
      IndexedIffLast(index, original, i);
    }
  }

  lemma IndexedIffLast(index: map<string, nat>, routes: seq<RibRoute>, i: nat)
    requires IsIndex(index, routes) && i < |routes|
    ensures IsLast(routes, i) <==> index[routes[i].prefix] == i
  {
  }

  /** The counts go in last, and a count beyond the named addresses means something was cut. */
  method WithCounts(routes: array<RibRoute>, counts: array<nat>) returns (reported: seq<RibRoute>, truncated: bool)
    requires routes.Length == counts.Length
    ensures |reported| == routes.Length
    ensures forall i :: 0 <= i < routes.Length ==> reported[i] == routes[i].(advertisedToCount := counts[i])
    ensures truncated <==> exists i :: 0 <= i < routes.Length && counts[i] > |routes[i].advertisedTo|
  {
    reported, truncated := [], false;
    for i := 0 to routes.Length
      invariant |reported| == i
      invariant forall j :: 0 <= j < i ==> reported[j] == routes[j].(advertisedToCount := counts[j])
      invariant truncated <==> exists j :: 0 <= j < i && counts[j] > |routes[j].advertisedTo|
    {
      reported := reported + [routes[i].(advertisedToCount := counts[i])];
      if counts[i] > |routes[i].advertisedTo| {
        truncated := true;
      }
    }
  }

  /** The advertisement part of collectRIBStatus, over arrays as the sources use slices. */
  method NoteAdvertisements(local: seq<RibRoute>, neighbors: seq<NeighborStatus>, adjOut: string -> set<string>)
    returns (reported: seq<RibRoute>, truncated: bool)
    requires Unadvertised(local)
    ensures |reported| == |local|
    ensures forall i :: 0 <= i < |local| ==> RouteReported(reported[i], local, i, neighbors, adjOut)
    ensures truncated <==> exists i :: 0 <= i < |local| && reported[i].advertisedToCount > 16
  {
    hide AllProgress, IsIndex, Sorted, Holders, Capped;
    var index := IndexByPrefix(local);
    var routes := new RibRoute[|local|](i requires 0 <= i < |local| => local[i]);
    var counts := new nat[|local|](_ => 0);
    assert routes[..] == local;
    var ordered := SortedCopy(neighbors, (n: NeighborStatus) => n.address);
    ProgressStart(routes[..], counts[..], local, ordered, adjOut);
    for k := 0 to |ordered|
      invariant AllProgress(routes[..], counts[..], local, ordered[..k], adjOut)
    {
      ghost var before, countsBefore := routes[..], counts[..];
      if ordered[k].state != ESTABLISHED {
        AllProgressStep(before, countsBefore, before, countsBefore, local, ordered, k, adjOut, index, {});
        continue;
      }
      IndexFits(index, routes[..], counts[..], local, ordered[..k], adjOut);
      NoteAdjOut(routes, counts, index, ordered[k].address, adjOut(ordered[k].address));
      AllProgressStep(before, countsBefore, routes[..], counts[..], local, ordered, k, adjOut, index, adjOut(ordered[k].address));
    }
    assert ordered[..|ordered|] == ordered;
    reported, truncated := WithCounts(routes, counts);
    forall i | 0 <= i < |local|
      ensures RouteReported(reported[i], local, i, neighbors, adjOut)
      ensures counts[i] > |routes[i].advertisedTo| <==> reported[i].advertisedToCount > MAX_ADVERTISED_TO
    {
      ProgressEnds(routes[..], counts[..], local, neighbors, ordered, adjOut, i);
    }
  }

  lemma ProgressStart(routes: seq<RibRoute>, counts: seq<nat>, local: seq<RibRoute>, ns: seq<NeighborStatus>, adjOut: string -> set<string>)
    requires routes == local && Unadvertised(local) && |counts| == |local| && forall i :: 0 <= i < |local| ==> counts[i] == 0
    ensures AllProgress(routes, counts, local, ns[..0], adjOut)
  {
  }

  lemma IndexFits(index: map<string, nat>, routes: seq<RibRoute>, counts: seq<nat>, local: seq<RibRoute>, ns: seq<NeighborStatus>,
                  adjOut: string -> set<string>)
    requires IsIndex(index, local) && AllProgress(routes, counts, local, ns, adjOut)
    ensures |routes| == |counts| == |local|
    ensures forall p :: p in index ==> index[p] < |routes| && routes[index[p]].prefix == p
  {
  }

  lemma ProgressEnds(routes: seq<RibRoute>, counts: seq<nat>, local: seq<RibRoute>, neighbors: seq<NeighborStatus>,
                     ordered: seq<NeighborStatus>, adjOut: string -> set<string>, i: nat)
    requires AllProgress(routes, counts, local, ordered, adjOut) && i < |local| && Unadvertised(local)
    requires Sorted(ordered, (n: NeighborStatus) => n.address) && multiset(ordered) == multiset(neighbors)
    ensures RouteReported(routes[i].(advertisedToCount := counts[i]), local, i, neighbors, adjOut)
    ensures counts[i] > |routes[i].advertisedTo| <==> counts[i] > MAX_ADVERTISED_TO
  {
    var h := Holders(ordered, local[i].prefix, adjOut);
    HoldersAreSorted(ordered, local[i].prefix, adjOut);
    HoldersPermuted(ordered, neighbors, local[i].prefix, adjOut);
    hide Holders, Sorted;
    if IsLast(local, i) {
      assert IsAdvertisers(h, neighbors, local[i].prefix, adjOut);
    }
  }

  /** collectRIBStatus. The counts are those before any cap; truncated says that some cap cut something. */
  method CollectRibStatus(table: seq<Option<Destination>>, neighbors: seq<NeighborStatus>, adjOut: string -> set<string>)
    returns (status: RibStatus, ghost reported: seq<RibRoute>)
    ensures status.localRouteCount == |LocalRoutes(table)| && status.receivedRouteCount == |ReceivedRoutes(table)|
    ensures |reported| == |LocalRoutes(table)|
    ensures forall i :: 0 <= i < |reported| ==> RouteReported(reported[i], LocalRoutes(table), i, neighbors, adjOut)
    ensures status.localRoutes == if |reported| > 500 then reported[..500] else reported
    ensures var received := ReceivedRoutes(table);
      status.receivedRoutes == if |received| > 100 then received[..100] else received
    ensures status.truncated <==>
      || |reported| > 500 || |ReceivedRoutes(table)| > 100
      || exists i :: 0 <= i < |reported| && reported[i].advertisedToCount > 16
  {
    hide LocalRoutes, ReceivedRoutes, RouteReported, Unadvertised;
    var local, received := ClassifyTable(table);
    LocalRoutesAreUnadvertised(table);
    var truncated := false;
    if |local| > 0 {
      local, truncated := NoteAdvertisements(local, neighbors, adjOut);
    }
    reported := local;
    var localCount, receivedCount := |local|, |received|;
    if |local| > MAX_LOCAL_ROUTES {
      local, truncated := local[..MAX_LOCAL_ROUTES], true;
    }
    if |received| > MAX_RECEIVED_ROUTES {
      received, truncated := received[..MAX_RECEIVED_ROUTES], true;
    }
    status := RibStatus(local, localCount, received, receivedCount, truncated);
  }
}
