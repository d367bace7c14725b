/** When two collected node statuses count as equal, whatever order gobgpd listed things in. */
module StatusComparison {
  import opened Wrappers
  import opened Messages
  import opened Text
  import opened Sorting

  datatype BfdStatus = BfdStatus(sessionState: string, remoteSessionState: string, localDiagnosticCode: string,
                                 remoteDiagnosticCode: string, failureTransitions: uint64)
  datatype NeighborStatus = NeighborStatus(
    address: string, peerAsn: uint32, localAsn: uint32, state: string, sessionUpSince: Option<int>,
    prefixesSent: uint64, prefixesReceived: uint64, description: string, lastError: string,
    inheritedBlocks: seq<string>, bfd: Option<BfdStatus>)
  datatype RibRoute = RibRoute(prefix: string, nextHop: string, fromPeer: string, advertisedTo: seq<string>,
                               advertisedToCount: nat, communities: seq<string>)
  datatype RibStatus = RibStatus(localRoutes: seq<RibRoute>, localRouteCount: nat,
                                 receivedRoutes: seq<RibRoute>, receivedRouteCount: nat, truncated: bool)
  datatype InterfaceStatus = InterfaceStatus(name: string, present: bool, operState: string)
  datatype ImportedAddress = ImportedAddress(address: string, iface: string, inRib: bool)
  datatype ImportStatus = ImportStatus(enabled: bool, vrf: string, interfaces: seq<InterfaceStatus>,
                                       importedAddresses: seq<ImportedAddress>, totalImported: nat, truncated: bool)
  datatype ExportRuleStatus = ExportRuleStatus(name: string, metric: uint32, tableId: int)
  datatype ExportedRoute = ExportedRoute(prefix: string, table: string, metric: uint32, installed: bool, reason: string)
  datatype ExportStatus = ExportStatus(enabled: bool, protocol: int, rules: seq<ExportRuleStatus>,
                                       exportedRoutes: seq<ExportedRoute>, totalExported: nat, truncated: bool)
  datatype VrfStatus = VrfStatus(name: string, rd: string, importedRouteCount: nat, exportedRouteCount: nat)
  datatype StatusData = StatusData(
    nodeName: string, routerId: string, routerIdSource: string, asn: uint32,
    lastUpdated: Option<int>, heartbeatSeconds: int,
    neighbors: seq<NeighborStatus>, neighborCount: nat,
    netlinkImport: Option<ImportStatus>, rib: Option<RibStatus>, netlinkExport: Option<ExportStatus>,
    vrfs: seq<VrfStatus>, truncated: bool, bfdListening: Option<bool>, healthy: bool)

  // ---- what a comparison is about ----

  /** A neighbor without the field that is not compared. */
  function NeighborView(n: NeighborStatus): NeighborStatus {
    n.(inheritedBlocks := [])
  }

  /** A route, with its two lists taken as what they contain. */
  datatype RouteView = RouteView(prefix: string, nextHop: string, fromPeer: string, advertisedTo: multiset<string>,
                                 advertisedToCount: nat, communities: multiset<string>)

  function RouteViewOf(r: RibRoute): RouteView {
    RouteView(r.prefix, r.nextHop, r.fromPeer, multiset(r.advertisedTo), r.advertisedToCount, multiset(r.communities))
  }

  function Neighbors(s: seq<NeighborStatus>): multiset<NeighborStatus> {
    multiset(Mapped(s, NeighborView))
  }

  function Routes(s: seq<RibRoute>): multiset<RouteView> {
    multiset(Mapped(s, RouteViewOf))
  }

  datatype RibView = RibView(localRoutes: multiset<RouteView>, localRouteCount: nat,
                             receivedRoutes: multiset<RouteView>, receivedRouteCount: nat, truncated: bool)

  function RibViewOf(r: RibStatus): RibView {
    RibView(Routes(r.localRoutes), r.localRouteCount, Routes(r.receivedRoutes), r.receivedRouteCount, r.truncated)
  }

  /** Everything a status comparison is about: not the time of the write, the heartbeat, the inherited
      blocks, the overall truncation flag or the BFD server. */
  datatype StatusView = StatusView(
    nodeName: string, routerId: string, routerIdSource: string, asn: uint32,
    neighbors: multiset<NeighborStatus>, neighborCount: nat, netlinkImport: Option<ImportStatus>,
    rib: Option<RibView>, netlinkExport: Option<ExportStatus>, vrfs: seq<VrfStatus>, healthy: bool)

  function StatusViewOf(s: StatusData): StatusView {
    StatusView(s.nodeName, s.routerId, s.routerIdSource, s.asn, Neighbors(s.neighbors), s.neighborCount, s.netlinkImport,
               match s.rib case None => None case Some(r) => Some(RibViewOf(r)),
               s.netlinkExport, s.vrfs, s.healthy)
  }

  /** Equality on the compared fields, which is an equivalence whatever the order of the lists. */
  ghost predicate SameStatus(a: Option<StatusData>, b: Option<StatusData>) {
    match (a, b)
    case (Some(x), Some(y)) => StatusViewOf(x) == StatusViewOf(y)
    case _ => a == b
  }

  /** Two neighbors agree on everything but the inherited blocks. */
  predicate NeighborAgrees(x: NeighborStatus, y: NeighborStatus) {
    && x.address == y.address && x.peerAsn == y.peerAsn && x.localAsn == y.localAsn && x.state == y.state
    && x.sessionUpSince == y.sessionUpSince && x.prefixesSent == y.prefixesSent && x.prefixesReceived == y.prefixesReceived
    && x.description == y.description && x.lastError == y.lastError && x.bfd == y.bfd
  }

  /** Two routes agree on everything but the order of their lists. */
  predicate RouteAgrees(x: RibRoute, y: RibRoute) {
    && x.prefix == y.prefix && x.nextHop == y.nextHop && x.fromPeer == y.fromPeer
    && x.advertisedToCount == y.advertisedToCount
    && multiset(x.advertisedTo) == multiset(y.advertisedTo) && multiset(x.communities) == multiset(y.communities)
  }

  /** What is compared outside the lists: not the time of the write, the heartbeat, the overall truncation flag
      or the BFD server. */
  predicate SameBesidesLists(a: StatusData, b: StatusData) {
    && a.nodeName == b.nodeName && a.routerId == b.routerId && a.routerIdSource == b.routerIdSource && a.asn == b.asn
    && a.neighborCount == b.neighborCount && a.netlinkImport == b.netlinkImport && a.netlinkExport == b.netlinkExport
    && a.vrfs == b.vrfs && a.healthy == b.healthy && |a.neighbors| == |b.neighbors| && a.rib.Some? == b.rib.Some?
    && (a.rib.Some? ==>
         var r, s := a.rib.value, b.rib.value;
         && r.localRouteCount == s.localRouteCount && r.receivedRouteCount == s.receivedRouteCount && r.truncated == s.truncated
         && |r.localRoutes| == |s.localRoutes| && |r.receivedRoutes| == |s.receivedRoutes|)
  }

  /** Every element of a has one that agrees in b. */
  ghost predicate NeighborsFound(a: seq<NeighborStatus>, b: seq<NeighborStatus>) {
    forall i :: 0 <= i < |a| ==> exists j :: 0 <= j < |b| && NeighborAgrees(a[i], b[j])
  }

  ghost predicate RoutesFound(a: seq<RibRoute>, b: seq<RibRoute>) {
    forall i :: 0 <= i < |a| ==> exists j :: 0 <= j < |b| && RouteAgrees(a[i], b[j])
  }

  lemma NeighborsAreFound(a: seq<NeighborStatus>, b: seq<NeighborStatus>)
    requires Neighbors(a) == Neighbors(b)
    ensures |a| == |b| && NeighborsFound(a, b)
  {
    SameSize(a, b, NeighborView);
    forall i | 0 <= i < |a| ensures exists j :: 0 <= j < |b| && NeighborAgrees(a[i], b[j]) {
      assert Mapped(a, NeighborView)[i] in multiset(Mapped(b, NeighborView));
      var j := IndexOf(Mapped(b, NeighborView), NeighborView(a[i]));
      assert NeighborAgrees(a[i], b[j]);
    }
  }

  lemma RoutesAreFound(a: seq<RibRoute>, b: seq<RibRoute>)
    requires Routes(a) == Routes(b)
    ensures |a| == |b| && RoutesFound(a, b)
  {
    SameSize(a, b, RouteViewOf);
    forall i | 0 <= i < |a| ensures exists j :: 0 <= j < |b| && RouteAgrees(a[i], b[j]) {
      assert Mapped(a, RouteViewOf)[i] in multiset(Mapped(b, RouteViewOf));
      var j := IndexOf(Mapped(b, RouteViewOf), RouteViewOf(a[i]));
      assert RouteAgrees(a[i], b[j]);
    }
  }

  /** Statuses that count as equal agree on every field that is compared, element by element. */
  lemma SameStatusMeans(a: StatusData, b: StatusData)
    requires SameStatus(Some(a), Some(b))
    ensures SameBesidesLists(a, b) && NeighborsFound(a.neighbors, b.neighbors)
    ensures a.rib.Some? ==>
      && RoutesFound(a.rib.value.localRoutes, b.rib.value.localRoutes)
      && RoutesFound(a.rib.value.receivedRoutes, b.rib.value.receivedRoutes)
  {
    hide NeighborsFound, RoutesFound, Neighbors, Routes;
    NeighborsAreFound(a.neighbors, b.neighbors);
    if a.rib.Some? {
      RoutesAreFound(a.rib.value.localRoutes, b.rib.value.localRoutes);
      RoutesAreFound(a.rib.value.receivedRoutes, b.rib.value.receivedRoutes);
    }
  }

  /** And agreement on those fields, in whatever else the two differ, is enough. */
  lemma AgreementIsSame(a: StatusData, b: StatusData)
    requires SameBesidesLists(a, b)
    requires forall i :: 0 <= i < |a.neighbors| ==> NeighborAgrees(a.neighbors[i], b.neighbors[i])
    requires a.rib.Some? ==>
      && (forall i :: 0 <= i < |a.rib.value.localRoutes| ==> RouteAgrees(a.rib.value.localRoutes[i], b.rib.value.localRoutes[i]))
      && (forall i :: 0 <= i < |a.rib.value.receivedRoutes| ==> RouteAgrees(a.rib.value.receivedRoutes[i], b.rib.value.receivedRoutes[i]))
    ensures SameStatus(Some(a), Some(b))
  {
    assert Mapped(a.neighbors, NeighborView) == Mapped(b.neighbors, NeighborView);
    if a.rib.Some? {
      assert Mapped(a.rib.value.localRoutes, RouteViewOf) == Mapped(b.rib.value.localRoutes, RouteViewOf);
      assert Mapped(a.rib.value.receivedRoutes, RouteViewOf) == Mapped(b.rib.value.receivedRoutes, RouteViewOf);
    }
  }

  // ---- sorting before comparing ----

  lemma ViewsOfSorted<T(!new), U>(s: seq<T>, key: T -> string, view: T -> U, viewKey: U -> string)
    requires Sorted(s, key) && forall x :: viewKey(view(x)) == key(x)
    ensures Sorted(Mapped(s, view), viewKey)
  {
    forall i, j | 0 <= i < j < |s| ensures !Less(viewKey(Mapped(s, view)[j]), viewKey(Mapped(s, view)[i])) {
      assert !Less(key(s[j]), key(s[i]));
    }
  }

  lemma IdentifiesPermuted<U>(a: seq<U>, b: seq<U>, key: U -> string)
    requires KeyIdentifies(a, key) && multiset(a) == multiset(b)
    ensures KeyIdentifies(b, key)
  {
    forall i, j | 0 <= i < |b| && 0 <= j < |b| && key(b[i]) == key(b[j]) ensures b[i] == b[j] {
      assert b[i] in multiset(a) && b[j] in multiset(a);
      var p := IndexOf(a, b[i]);
      var q := IndexOf(a, b[j]);
    }
  }

  /** Comparing the views of two sorted lists compares the lists as multisets of views: always in one
      direction, and in the other where the key identifies the views. */
  lemma SortedComparison<T(!new), U>(a: seq<T>, b: seq<T>, sortedA: seq<T>, sortedB: seq<T>,
                                     key: T -> string, view: T -> U, viewKey: U -> string)
    requires Sorted(sortedA, key) && multiset(sortedA) == multiset(a)
    requires Sorted(sortedB, key) && multiset(sortedB) == multiset(b)
    requires forall x :: viewKey(view(x)) == key(x)
    ensures Mapped(sortedA, view) == Mapped(sortedB, view) ==> multiset(Mapped(a, view)) == multiset(Mapped(b, view))
    ensures KeyIdentifies(Mapped(a, view), viewKey) && multiset(Mapped(a, view)) == multiset(Mapped(b, view)) ==>
            Mapped(sortedA, view) == Mapped(sortedB, view)
  {
    hide Mapped, Sorted, KeyIdentifies;
    MappedPermutation(sortedA, a, view);
    MappedPermutation(sortedB, b, view);
    ViewsOfSorted(sortedA, key, view, viewKey);
    ViewsOfSorted(sortedB, key, view, viewKey);
    if KeyIdentifies(Mapped(a, view), viewKey) && multiset(Mapped(a, view)) == multiset(Mapped(b, view)) {
      IdentifiesPermuted(Mapped(a, view), Mapped(sortedA, view), viewKey);
      SortedIsUnique(Mapped(sortedA, view), Mapped(sortedB, view), viewKey);
    }
  }

  lemma SameSize<T, U>(a: seq<T>, b: seq<T>, view: T -> U)
    requires multiset(Mapped(a, view)) == multiset(Mapped(b, view))
    ensures |a| == |b|
  {
    assert |multiset(Mapped(a, view))| == |a| && |multiset(Mapped(b, view))| == |b|;
  }

  // ---- the comparisons ----

  /** stringSlicesEqual: exactly multiset equality. */
  method StringSlicesEqual(a: seq<string>, b: seq<string>) returns (r: bool)
    ensures r <==> multiset(a) == multiset(b)
  {
    if |a| == 0 && |b| == 0 {
      return true;
    }
    assert |multiset(a)| == |a| && |multiset(b)| == |b|;
    if |a| != |b| {
      return false;
    }
    var sortedA := SortedCopy(a, x => x);
    var sortedB := SortedCopy(b, x => x);
    if multiset(a) == multiset(b) {
      SortedIsUnique(sortedA, sortedB, x => x);
    }
    for i := 0 to |sortedA|
      invariant sortedA[..i] == sortedB[..i]
    {
      if sortedA[i] != sortedB[i] {
        return false;
      }
    }
    assert sortedA[..|sortedA|] == sortedA && sortedB[..|sortedA|] == sortedB;
    return true;
  }

  /** Neighbors with one address look the same; distinct addresses are the usual case. */
  ghost predicate NeighborsIdentified(s: seq<NeighborStatus>) {
    KeyIdentifies(Mapped(s, NeighborView), (n: NeighborStatus) => n.address)
  }

  ghost predicate RoutesIdentified(s: seq<RibRoute>) {
    KeyIdentifies(Mapped(s, RouteViewOf), (r: RouteView) => r.prefix)
  }

  /** Distinct addresses identify neighbors, and distinct prefixes routes. */
  lemma DistinctKeysIdentify<T, U>(s: seq<T>, view: T -> U, key: U -> string)
    requires forall i, j :: 0 <= i < j < |s| ==> key(view(s[i])) != key(view(s[j]))
    ensures KeyIdentifies(Mapped(s, view), key)
  {
    var views := Mapped(s, view);
    forall i, j | 0 <= i < |views| && 0 <= j < |views| && key(views[i]) == key(views[j]) ensures views[i] == views[j] {
      assert key(view(s[i])) == key(view(s[j]));
      assert i == j;
    }
  }

  ghost predicate DistinctAddresses(s: seq<NeighborStatus>) {
    forall i, j :: 0 <= i < j < |s| ==> s[i].address != s[j].address
  }

  ghost predicate DistinctPrefixes(s: seq<RibRoute>) {
    forall i, j :: 0 <= i < j < |s| ==> s[i].prefix != s[j].prefix
  }

  /** neighborsEqual: success means one list is a permutation of the other on the compared fields, and where
      addresses identify neighbors every such permutation succeeds. */
  method NeighborsEqual(a: seq<NeighborStatus>, b: seq<NeighborStatus>) returns (r: bool)
    ensures r ==> Neighbors(a) == Neighbors(b)
    ensures NeighborsIdentified(a) && Neighbors(a) == Neighbors(b) ==> r
    ensures DistinctAddresses(a) ==> (r <==> Neighbors(a) == Neighbors(b))
  {
    hide KeyIdentifies;
    if DistinctAddresses(a) {
      DistinctKeysIdentify(a, NeighborView, (n: NeighborStatus) => n.address);
    }
    if |a| == 0 && |b| == 0 {
      return true;
    }
    if |a| != |b| {
      if Neighbors(a) == Neighbors(b) {
        SameSize(a, b, NeighborView);
      }
      return false;
    }
    var sortedA := SortedCopy(a, (n: NeighborStatus) => n.address);
    var sortedB := SortedCopy(b, (n: NeighborStatus) => n.address);
    SortedComparison(a, b, sortedA, sortedB, (n: NeighborStatus) => n.address, NeighborView, (n: NeighborStatus) => n.address);
    for i := 0 to |sortedA|
      invariant forall j :: 0 <= j < i ==> NeighborView(sortedA[j]) == NeighborView(sortedB[j])
    {
      var x, y := sortedA[i], sortedB[i];
      if x.address != y.address || x.peerAsn != y.peerAsn || x.localAsn != y.localAsn || x.state != y.state
         || x.prefixesSent != y.prefixesSent || x.prefixesReceived != y.prefixesReceived
         || x.description != y.description || x.lastError != y.lastError {
        assert Mapped(sortedA, NeighborView)[i] != Mapped(sortedB, NeighborView)[i];
        return false;
      }
      if x.sessionUpSince != y.sessionUpSince {
        assert Mapped(sortedA, NeighborView)[i] != Mapped(sortedB, NeighborView)[i];
        return false;
      }
      if x.bfd != y.bfd {
        assert Mapped(sortedA, NeighborView)[i] != Mapped(sortedB, NeighborView)[i];
        return false;
      }
    }
    assert Mapped(sortedA, NeighborView) == Mapped(sortedB, NeighborView);
    return true;
  }

  /** ribRoutesEqual, likewise; the lists inside a route are compared as multisets. */
  method RibRoutesEqual(a: seq<RibRoute>, b: seq<RibRoute>) returns (r: bool)
    ensures r ==> Routes(a) == Routes(b)
    ensures RoutesIdentified(a) && Routes(a) == Routes(b) ==> r
    ensures DistinctPrefixes(a) ==> (r <==> Routes(a) == Routes(b))
  {
    hide KeyIdentifies;
    if DistinctPrefixes(a) {
      DistinctKeysIdentify(a, RouteViewOf, (r: RouteView) => r.prefix);
    }
    if |a| == 0 && |b| == 0 {
      return true;
    }
    if |a| != |b| {
      if Routes(a) == Routes(b) {
        SameSize(a, b, RouteViewOf);
      }
      return false;
    }
    var sortedA := SortedCopy(a, (r: RibRoute) => r.prefix);
    var sortedB := SortedCopy(b, (r: RibRoute) => r.prefix);
    SortedComparison(a, b, sortedA, sortedB, (r: RibRoute) => r.prefix, RouteViewOf, (r: RouteView) => r.prefix);
    for i := 0 to |sortedA|
      invariant forall j :: 0 <= j < i ==> RouteViewOf(sortedA[j]) == RouteViewOf(sortedB[j])
    {
      var same := RibRouteEqual(sortedA[i], sortedB[i]);
      if !same {
        assert Mapped(sortedA, RouteViewOf)[i] != Mapped(sortedB, RouteViewOf)[i];
        return false;
      }
    }
    assert Mapped(sortedA, RouteViewOf) == Mapped(sortedB, RouteViewOf);
    return true;
  }

  /** The body of that loop. */
  method RibRouteEqual(x: RibRoute, y: RibRoute) returns (r: bool)
    ensures r <==> RouteViewOf(x) == RouteViewOf(y)
  {
    if x.prefix != y.prefix || x.nextHop != y.nextHop || x.fromPeer != y.fromPeer {
      return false;
    }
    if x.advertisedToCount != y.advertisedToCount {
      return false;
    }
    r := StringSlicesEqual(x.advertisedTo, y.advertisedTo);
    if r {
      r := StringSlicesEqual(x.communities, y.communities);
    }
  }

  ghost predicate Identified(s: StatusData) {
    && NeighborsIdentified(s.neighbors)
    && (s.rib.Some? ==> RoutesIdentified(s.rib.value.localRoutes) && RoutesIdentified(s.rib.value.receivedRoutes))
  }

  method RibStatusEqual(a: Option<RibStatus>, b: Option<RibStatus>) returns (r: bool)
    ensures r ==> a.Some? == b.Some? && (a.Some? ==> RibViewOf(a.value) == RibViewOf(b.value))
    ensures a.None? && b.None? ==> r
    ensures a.Some? && b.Some? && RoutesIdentified(a.value.localRoutes) && RoutesIdentified(a.value.receivedRoutes) ==>
            RibViewOf(a.value) == RibViewOf(b.value) ==> r
  {
    hide RoutesIdentified, Routes;
    if a.None? && b.None? {
      return true;
    }
    if a.None? || b.None? {
      return false;
    }
    var x, y := a.value, b.value;
    if x.localRouteCount != y.localRouteCount || x.receivedRouteCount != y.receivedRouteCount || x.truncated != y.truncated {
      return false;
    }
    r := RibRoutesEqual(x.localRoutes, y.localRoutes);
    if !r {
      return false;
    }
    r := RibRoutesEqual(x.receivedRoutes, y.receivedRoutes);
  }

  /** statusEqual. The import, export and VRF comparators test every field of theirs, lists in order. */
  method StatusEqual(a: Option<StatusData>, b: Option<StatusData>) returns (r: bool)
    ensures r ==> SameStatus(a, b)
    ensures (a.Some? ==> Identified(a.value)) && SameStatus(a, b) ==> r
  {
    hide RoutesIdentified, NeighborsIdentified, Routes, Neighbors, RibViewOf;
    if a.None? || b.None? {
      return a.None? && b.None?;
    }
    var x, y := a.value, b.value;
    if x.nodeName != y.nodeName || x.routerId != y.routerId || x.routerIdSource != y.routerIdSource || x.asn != y.asn
       || x.neighborCount != y.neighborCount || x.healthy != y.healthy {
      return false;
    }
    r := NeighborsEqual(x.neighbors, y.neighbors);
    if !r || x.netlinkImport != y.netlinkImport {
      return false;
    }
    r := RibStatusEqual(x.rib, y.rib);
    if !r || x.netlinkExport != y.netlinkExport {
      return false;
    }
    return x.vrfs == y.vrfs;
  }

  /** A status and the same status with its lists in another order are the same. */
  lemma OrderDoesNotMatter(a: StatusData, neighbors: seq<NeighborStatus>, local: seq<RibRoute>, received: seq<RibRoute>)
    requires multiset(neighbors) == multiset(a.neighbors) && a.rib.Some?
    requires multiset(local) == multiset(a.rib.value.localRoutes) && multiset(received) == multiset(a.rib.value.receivedRoutes)
    ensures SameStatus(Some(a), Some(a.(neighbors := neighbors,
                                        rib := Some(a.rib.value.(localRoutes := local, receivedRoutes := received)))))
  {
    MappedPermutation(neighbors, a.neighbors, NeighborView);
    MappedPermutation(local, a.rib.value.localRoutes, RouteViewOf);
    MappedPermutation(received, a.rib.value.receivedRoutes, RouteViewOf);
  }
}
