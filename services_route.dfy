/** `RouteOptimizationService.calculate_optimal_route`
    (backend/logistics/services.py): plans one route over every order that is
    pending and unassigned. The orders are clustered, up to three stores are
    chosen per cluster, a depot, the stores and the customers are ordered by
    the nearest-neighbour tour, and the ordered stops are stored with running
    distances. The courier record is given directly; the route is stored
    inactive. */
module RouteOptimizationService {
  import opened Common
  import opened OrderModels
  import opened AccountModels
  import opened LogisticsModels
  import opened DistanceCalculator
  import opened Tables
  import ClusteringService
  import StoreSelectionService
  import TspSolver

  /** The fixed start of every route (the city centre). */
  const DepotLocation: Point := Point(33.5731, -7.5898)

  /** One entry of `all_stops`. */
  datatype PlannedStop = PlannedStop(stopType: StopType, storeId: Option<nat>, orderId: Option<nat>, location: Point)

  /** One entry of `ordered_stops`. */
  datatype OrderedStop = OrderedStop(sequence: nat, stop: PlannedStop, distanceToNext: real, timeToNext: real)

  datatype Outcome = Planned(route: OptimizedRoute) | ValueError(message: string)

  const Depot: PlannedStop := PlannedStop(DepotStop, None, None, DepotLocation)

  function StoreStopOf(s: Store): PlannedStop
  {
    PlannedStop(StoreStop, Some(s.id), None, s.location)
  }

  function ClientStopOf(o: Order): PlannedStop
  {
    PlannedStop(ClientStop, None, Some(o.id), o.location)
  }

  function Location(s: PlannedStop): Point { s.location }

  function DistanceToNext(s: OrderedStop): real { s.distanceToNext }

  function TimeToNext(s: OrderedStop): real { s.timeToNext }

  function DistanceFromPrevious(s: RouteStop): real { s.distanceFromPrevious }

  /** The order of a customer stop, as a list of zero or one ids. */
  function PlannedClient(s: PlannedStop): seq<nat>
  {
    if s.stopType == ClientStop && s.orderId.Some? then [s.orderId.value] else []
  }

  function StoredClient(s: RouteStop): seq<nat>
  {
    if s.stopType == ClientStop && s.orderId.Some? then [s.orderId.value] else []
  }

  /** The orders of the customer stops of a stored route, in visiting order. */
  function ClientOrderIds(stops: seq<RouteStop>): seq<nat>
  {
    FlatMap(stops, StoredClient)
  }

  /** `Order.objects.filter(status=PENDING, courier__isnull=True)`. */
  function PendingUnassigned(orders: seq<Order>): (r: seq<Order>)
    ensures forall o :: o in r <==> o in orders && o.status == Pending && o.courier.None?
    ensures OrderIdsDistinct(orders) ==> OrderIdsDistinct(r)
  {
    if orders == [] then []
    else
      var rest := PendingUnassigned(orders[..|orders| - 1]);
      var last := orders[|orders| - 1];
      assert forall o :: o in orders <==> o in orders[..|orders| - 1] || o == last by {
        assert orders == orders[..|orders| - 1] + [last];
      }
      assert OrderIdsDistinct(orders) ==> forall o :: o in rest ==> o.id != last.id by {
        if OrderIdsDistinct(orders) {
          forall o | o in rest ensures o.id != last.id {
            var k :| 0 <= k < |orders| - 1 && orders[..|orders| - 1][k] == o;
            assert orders[k] == o;
          }
        }
      }
      rest + (if last.status == Pending && last.courier.None? then [last] else [])
  }

  /** A stored stop: the visiting order counts from 1, and the leg to the next
      stop is stored as `distance_from_previous`. */
  function ToRouteStop(s: OrderedStop): RouteStop
  {
    RouteStop(s.stop.stopType, s.stop.storeId, s.stop.orderId, s.sequence + 1, s.stop.location, s.distanceToNext)
  }

  predicate IndicesIn(routeIdx: seq<nat>, n: nat)
  {
    forall k :: 0 <= k < |routeIdx| ==> routeIdx[k] < n
  }

  /** The `k`-th entry of `ordered_stops`: the stop, and the leg from it to
      the next stop of the tour (none after the last). */
  function OrderedAt(allStops: seq<PlannedStop>, routeIdx: seq<nat>, leg: (Point, Point) -> Leg, k: nat): (r: OrderedStop)
    requires k < |routeIdx| && IndicesIn(routeIdx, |allStops|)
    ensures r.sequence == k && r.stop == allStops[routeIdx[k]]
    ensures k + 1 == |routeIdx| ==> r.distanceToNext == 0.0 && r.timeToNext == 0.0
  {
    var here := allStops[routeIdx[k]];
    if k + 1 < |routeIdx| then
      var l := leg(here.location, allStops[routeIdx[k + 1]].location);
      OrderedStop(k, here, l.km, l.minutes)
    else
      OrderedStop(k, here, 0.0, 0.0)
  }

  /** Step 5: walk the tour, recording each stop with the leg to the next one
      and accumulating the totals; the last stop has no next leg. */
  method AssembleStops(allStops: seq<PlannedStop>, routeIdx: seq<nat>, leg: (Point, Point) -> Leg)
    returns (ordered: seq<OrderedStop>, totalDistance: real, totalTime: real)
    requires |routeIdx| >= 1 && IndicesIn(routeIdx, |allStops|)
    ensures |ordered| == |routeIdx|
    ensures forall k :: 0 <= k < |ordered| ==> ordered[k] == OrderedAt(allStops, routeIdx, leg, k)
    ensures totalDistance == Sum(ordered, DistanceToNext) && totalTime == Sum(ordered, TimeToNext)
  {
    totalDistance := 0.0;
    totalTime := 0.0;
    ordered := [];
    var i := 0;
    while i < |routeIdx| - 1
      invariant 0 <= i <= |routeIdx| - 1 && |ordered| == i
      invariant forall k :: 0 <= k < i ==> ordered[k] == OrderedAt(allStops, routeIdx, leg, k)
      invariant totalDistance == Sum(ordered, DistanceToNext) && totalTime == Sum(ordered, TimeToNext)
    {
      var entry := OrderedAt(allStops, routeIdx, leg, i);
      totalDistance := totalDistance + entry.distanceToNext;
      totalTime := totalTime + entry.timeToNext;
      assert (ordered + [entry])[..i] == ordered;
      ordered := ordered + [entry];
      i := i + 1;
    }
    var lastStop := OrderedAt(allStops, routeIdx, leg, |routeIdx| - 1);
    assert (ordered + [lastStop])[..|ordered|] == ordered;
    ordered := ordered + [lastStop];
  }

  /** With non-negative legs the route length is non-negative. */
  lemma TotalDistanceNonNegative(allStops: seq<PlannedStop>, routeIdx: seq<nat>, leg: (Point, Point) -> Leg, ordered: seq<OrderedStop>)
    requires IndicesIn(routeIdx, |allStops|) && |ordered| == |routeIdx|
    requires forall k :: 0 <= k < |ordered| ==> ordered[k] == OrderedAt(allStops, routeIdx, leg, k)
    requires forall a, b :: leg(a, b).km >= 0.0
    ensures Sum(ordered, DistanceToNext) >= 0.0
  {
    forall k | 0 <= k < |ordered| ensures DistanceToNext(ordered[k]) >= 0.0 {
      var here := allStops[routeIdx[k]];
      if k + 1 < |routeIdx| {
        assert DistanceToNext(ordered[k]) == leg(here.location, allStops[routeIdx[k + 1]].location).km;
      }
    }
    SumNonNegative(ordered, DistanceToNext);
  }

  /** Store stops carry no order. */
  lemma {:induction false} StoreStopsHaveNoClient(chosen: seq<Store>)
    ensures FlatMap(Map(chosen, StoreStopOf), PlannedClient) == []
  {
    if chosen != [] {
      var c' := chosen[..|chosen| - 1];
      assert Map(chosen, StoreStopOf)[..|chosen| - 1] == Map(c', StoreStopOf);
      StoreStopsHaveNoClient(c');
    }
  }

  /** The client stops of a cluster carry its orders, in order. */
  lemma {:induction false} ClientStopsCarryOrders(cluster: seq<Order>)
    ensures FlatMap(Map(cluster, ClientStopOf), PlannedClient) == Map(cluster, OrderId)
  {
    if cluster != [] {
      var c' := cluster[..|cluster| - 1];
      assert Map(cluster, ClientStopOf)[..|cluster| - 1] == Map(c', ClientStopOf);
      assert Map(cluster, OrderId) == Map(c', OrderId) + [cluster[|cluster| - 1].id];
      ClientStopsCarryOrders(c');
    }
  }

  ghost predicate StoresFrom(allStops: seq<PlannedStop>, stores: seq<Store>)
  {
    forall k :: 0 <= k < |allStops| && allStops[k].stopType == StoreStop ==>
      exists s :: s in stores && allStops[k] == StoreStopOf(s)
  }

  /** The stop list of step 3 when `chosen[c]` are the stores chosen for
      cluster `c`: the depot, then for each cluster its store stops and then
      its client stops. */
  function Layout(clusters: seq<seq<Order>>, chosen: seq<seq<Store>>): (r: seq<PlannedStop>)
    requires |chosen| == |clusters|
    ensures |r| >= 1 && r[0] == Depot
  {
    if clusters == [] then [Depot]
    else
      var n := |clusters| - 1;
      Layout(clusters[..n], chosen[..n]) + Map(chosen[n], StoreStopOf) + Map(clusters[n], ClientStopOf)
  }

  /** The stores chosen for each cluster are those `find_optimal_stores`
      returns for it. */
  ghost predicate ChosenFor(clusters: seq<seq<Order>>, stores: seq<Store>, leg: (Point, Point) -> Leg, chosen: seq<seq<Store>>)
  {
    && |chosen| == |clusters|
    && forall c :: 0 <= c < |clusters| ==> StoreSelectionService.NearestStores(clusters[c], stores, leg, chosen[c])
  }

  /** The state of step 3 after `c` clusters. */
  ghost predicate StopsSoFar(clusters: seq<seq<Order>>, stores: seq<Store>, leg: (Point, Point) -> Leg, c: nat,
                             allStops: seq<PlannedStop>, selectedOrders: seq<Order>, chosen: seq<seq<Store>>)
  {
    && c <= |clusters|
    && ChosenFor(clusters[..c], stores, leg, chosen)
    && allStops == Layout(clusters[..c], chosen)
    && selectedOrders == Flatten(clusters[..c])
  }

  method AppendStoreStops(allStops: seq<PlannedStop>, chosen: seq<Store>) returns (r: seq<PlannedStop>)
    ensures r == allStops + Map(chosen, StoreStopOf)
  {
    r := allStops;
    var t := 0;
    while t < |chosen|
      invariant 0 <= t <= |chosen| && r == allStops + Map(chosen[..t], StoreStopOf)
    {
      assert Map(chosen[..t + 1], StoreStopOf) == Map(chosen[..t], StoreStopOf) + [StoreStopOf(chosen[t])];
      r := r + [StoreStopOf(chosen[t])];
      t := t + 1;
    }
    assert chosen[..t] == chosen;
  }

  method AppendClientStops(allStops: seq<PlannedStop>, selectedOrders: seq<Order>, cluster: seq<Order>)
    returns (r: seq<PlannedStop>, selected: seq<Order>)
    ensures r == allStops + Map(cluster, ClientStopOf) && selected == selectedOrders + cluster
  {
    r, selected := allStops, selectedOrders;
    var u := 0;
    while u < |cluster|
      invariant 0 <= u <= |cluster|
      invariant r == allStops + Map(cluster[..u], ClientStopOf) && selected == selectedOrders + cluster[..u]
    {
      assert Map(cluster[..u + 1], ClientStopOf) == Map(cluster[..u], ClientStopOf) + [ClientStopOf(cluster[u])];
      assert cluster[..u + 1] == cluster[..u] + [cluster[u]];
      r := r + [ClientStopOf(cluster[u])];
      selected := selected + [cluster[u]];
      u := u + 1;
    }
    assert cluster[..u] == cluster;
  }

  /** One turn of step 3 keeps `StopsSoFar`: the stores `find_optimal_stores`
      picks for the next cluster, then its clients, are appended. */
  lemma AddClusterStops(clusters: seq<seq<Order>>, stores: seq<Store>, leg: (Point, Point) -> Leg, c: nat,
                        allStops: seq<PlannedStop>, selectedOrders: seq<Order>, chosen: seq<seq<Store>>, picked: seq<Store>)
    requires StopsSoFar(clusters, stores, leg, c, allStops, selectedOrders, chosen) && c < |clusters|
    requires StoreSelectionService.NearestStores(clusters[c], stores, leg, picked)
    ensures StopsSoFar(clusters, stores, leg, c + 1,
                       allStops + Map(picked, StoreStopOf) + Map(clusters[c], ClientStopOf),
                       selectedOrders + clusters[c], chosen + [picked])
  {
    var next := clusters[..c + 1];
    assert next[..c] == clusters[..c] && next[c] == clusters[c];
    assert (chosen + [picked])[..c] == chosen && (chosen + [picked])[c] == picked;
    assert next == clusters[..c] + [clusters[c]];
    FlattenSnoc(clusters[..c], clusters[c]);
  }

  /** Step 3: the depot, then per cluster its nearest stores and its clients. */
  method BuildStops(clusters: seq<seq<Order>>, stores: seq<Store>, leg: (Point, Point) -> Leg)
    returns (allStops: seq<PlannedStop>, selectedOrders: seq<Order>, ghost chosen: seq<seq<Store>>)
    ensures ChosenFor(clusters, stores, leg, chosen)
    ensures allStops == Layout(clusters, chosen)
    ensures selectedOrders == Flatten(clusters)
  {
    allStops := [Depot];
    selectedOrders := [];
    chosen := [];
    var c := 0;
    assert clusters[..0] == [];
    while c < |clusters|
      invariant StopsSoFar(clusters, stores, leg, c, allStops, selectedOrders, chosen)
    {
      var picked := StoreSelectionService.FindOptimalStores(clusters[c], stores, leg);
      AddClusterStops(clusters, stores, leg, c, allStops, selectedOrders, chosen, picked);
      allStops := AppendStoreStops(allStops, picked);
      allStops, selectedOrders := AppendClientStops(allStops, selectedOrders, clusters[c]);
      chosen := chosen + [picked];
      c := c + 1;
    }
    assert clusters[..c] == clusters;
  }

  /** The layout over the first clusters is the layout over all but the last,
      and the choices for them are the choices for all but the last. */
  lemma ChosenForInit(clusters: seq<seq<Order>>, stores: seq<Store>, leg: (Point, Point) -> Leg, chosen: seq<seq<Store>>)
    requires ChosenFor(clusters, stores, leg, chosen) && clusters != []
    ensures ChosenFor(clusters[..|clusters| - 1], stores, leg, chosen[..|clusters| - 1])
  {
    var n := |clusters| - 1;
    forall t | 0 <= t < n
      ensures StoreSelectionService.NearestStores(clusters[..n][t], stores, leg, chosen[..n][t])
    {
      assert clusters[..n][t] == clusters[t] && chosen[..n][t] == chosen[t];
    }
  }

  /** The client stops of the layout carry the clusters' orders, in order. */
  lemma {:induction false} LayoutClients(clusters: seq<seq<Order>>, chosen: seq<seq<Store>>)
    requires |chosen| == |clusters|
    ensures FlatMap(Layout(clusters, chosen), PlannedClient) == Map(Flatten(clusters), OrderId)
  {
    if clusters != [] {
      var n := |clusters| - 1;
      var init, last := clusters[..n], clusters[n];
      LayoutClients(init, chosen[..n]);
      var prev := Layout(init, chosen[..n]);
      var withStores := prev + Map(chosen[n], StoreStopOf);
      FlatMapConcat(prev, Map(chosen[n], StoreStopOf), PlannedClient);
      FlatMapConcat(withStores, Map(last, ClientStopOf), PlannedClient);
      StoreStopsHaveNoClient(chosen[n]);
      ClientStopsCarryOrders(last);
      assert clusters == init + [last];
      FlattenSnoc(init, last);
      MapConcat(Flatten(init), last, OrderId);
    }
  }

  /** The store stops of the layout are stores of the table. */
  lemma {:induction false} LayoutStores(clusters: seq<seq<Order>>, stores: seq<Store>, leg: (Point, Point) -> Leg, chosen: seq<seq<Store>>)
    requires ChosenFor(clusters, stores, leg, chosen)
    ensures StoresFrom(Layout(clusters, chosen), stores)
  {
    if clusters != [] {
      var n := |clusters| - 1;
      ChosenForInit(clusters, stores, leg, chosen);
      LayoutStores(clusters[..n], stores, leg, chosen[..n]);
      var prev := Layout(clusters[..n], chosen[..n]);
      var picked := chosen[n];
      StoreSelectionService.NearestAreListed(clusters[n], stores, leg, picked);
      var all := Layout(clusters, chosen);
      assert all == prev + Map(picked, StoreStopOf) + Map(clusters[n], ClientStopOf);
      forall k | 0 <= k < |all| && all[k].stopType == StoreStop
        ensures exists s :: s in stores && all[k] == StoreStopOf(s)
      {
        if k < |prev| {
          assert all[k] == prev[k];
        } else {
          assert k - |prev| < |picked|;
          assert all[k] == StoreStopOf(picked[k - |prev|]);
        }
      }
    }
  }

  /** The orders of the stored route are the planned ones, in tour order:
      each planned order once, since the tour visits every planned stop once. */
  lemma TourKeepsClients(allStops: seq<PlannedStop>, routeIdx: seq<nat>, leg: (Point, Point) -> Leg,
                         ordered: seq<OrderedStop>)
    requires IsPermutationOf(routeIdx, |allStops|) && |ordered| == |routeIdx|
    requires forall k :: 0 <= k < |ordered| ==> ordered[k] == OrderedAt(allStops, routeIdx, leg, k)
    ensures multiset(ClientOrderIds(Map(ordered, ToRouteStop))) == multiset(FlatMap(allStops, PlannedClient))
  {
    var visited := Map(routeIdx, (i: nat) => if i < |allStops| then allStops[i] else Depot);
    FlatMapPointwise(Map(ordered, ToRouteStop), visited, StoredClient, PlannedClient);
    PermutationMultiset(routeIdx, |allStops|);
    MapMultiset(routeIdx, Range(|allStops|), (i: nat) => if i < |allStops| then allStops[i] else Depot);
    assert Map(Range(|allStops|), (i: nat) => if i < |allStops| then allStops[i] else Depot) == allStops;
    FlatMapMultiset(visited, allStops, PlannedClient);
  }

  /** Distinct orders appear once each in any permutation of their ids. */
  lemma EachOrderOnce(pending: seq<Order>, ids: seq<nat>)
    requires OrderIdsDistinct(pending) && multiset(ids) == multiset(Map(pending, OrderId))
    ensures forall o :: o in pending ==> multiset(ids)[o.id] == 1
  {
    var pendingIds := Map(pending, OrderId);
    assert Distinct(pendingIds) by {
      forall a, b | 0 <= a < b < |pendingIds| ensures pendingIds[a] != pendingIds[b] {
        assert pendingIds[a] == pending[a].id;
      }
    }
    DistinctMultiset(pendingIds);
    forall o | o in pending ensures multiset(ids)[o.id] == 1 {
      var k :| 0 <= k < |pending| && pending[k] == o;
      assert pendingIds[k] == o.id;
      assert o.id in Elems(pendingIds);
    }
  }

  /** The stored stops: the depot first, numbered from 1, each carrying the
      leg to the following stop (none after the last), store stops at one of
      `stores`. */
  ghost predicate RouteShape(stops: seq<RouteStop>, stores: seq<Store>, leg: (Point, Point) -> Leg)
  {
    && |stops| >= 1
    && stops[0].stopType == DepotStop && stops[0].location == DepotLocation
    && (forall k :: 0 <= k < |stops| ==> stops[k].sequence == k + 1)
    && (forall k :: 0 <= k < |stops| - 1 ==>
          stops[k].distanceFromPrevious == leg(stops[k].location, stops[k + 1].location).km)
    && stops[|stops| - 1].distanceFromPrevious == 0.0
    && (forall k :: 0 <= k < |stops| && stops[k].stopType == StoreStop ==>
          exists s :: s in stores && stops[k].storeId == Some(s.id) && stops[k].location == s.location)
  }

  lemma StoredShape(allStops: seq<PlannedStop>, routeIdx: seq<nat>, leg: (Point, Point) -> Leg,
                    ordered: seq<OrderedStop>, stores: seq<Store>)
    requires IsPermutationOf(routeIdx, |allStops|) && |ordered| == |routeIdx| >= 1
    requires allStops[0] == Depot && routeIdx[0] == 0 && StoresFrom(allStops, stores)
    requires forall k :: 0 <= k < |ordered| ==> ordered[k] == OrderedAt(allStops, routeIdx, leg, k)
    ensures RouteShape(Map(ordered, ToRouteStop), stores, leg)
  {
    var stops := Map(ordered, ToRouteStop);
    forall k | 0 <= k < |stops| - 1
      ensures stops[k].distanceFromPrevious == leg(stops[k].location, stops[k + 1].location).km
    {
      assert stops[k + 1].location == allStops[routeIdx[k + 1]].location;
    }
    forall k | 0 <= k < |stops| && stops[k].stopType == StoreStop
      ensures exists s :: s in stores && stops[k].storeId == Some(s.id) && stops[k].location == s.location
    {
      var p := allStops[routeIdx[k]];
      assert p.stopType == StoreStop;
      var s :| s in stores && p == StoreStopOf(s);
    }
  }

  /** Step 2: `cluster_clients` with its default reach of 3 km; `members`
      gives the positions in `pending` of each cluster's orders. */
  method ClusterPending(pending: seq<Order>, leg: (Point, Point) -> Leg)
    returns (clusters: seq<seq<Order>>, ghost members: seq<seq<nat>>)
    ensures ClusteringService.Clustered(pending, clusters, members, ClusteringService.DefaultMaxDistanceKm, leg)
    ensures multiset(Flatten(clusters)) == multiset(pending)
  {
    var positions;
    clusters, positions := ClusteringService.ClusterClients(pending, ClusteringService.DefaultMaxDistanceKm, leg);
    members := positions;
  }

  /** The travel time of a stored tour: the minutes of each leg between
      consecutive stops, in order. */
  function TourMinutes(stops: seq<RouteStop>, leg: (Point, Point) -> Leg): real
  {
    if |stops| <= 1 then 0.0
    else TourMinutes(stops[..|stops| - 1], leg) + leg(stops[|stops| - 2].location, stops[|stops| - 1].location).minutes
  }

  /** Entries that carry the minutes to the next stop, and none after the
      last, add up to the tour's travel time (taken over the first `m` stops). */
  lemma {:induction false} MinutesAlongTour(ordered: seq<OrderedStop>, stops: seq<RouteStop>,
                                            leg: (Point, Point) -> Leg, m: nat)
    requires |ordered| == |stops| && 1 <= m <= |stops|
    requires forall k :: 0 <= k < |stops| - 1 ==>
               ordered[k].timeToNext == leg(stops[k].location, stops[k + 1].location).minutes
    ensures Sum(ordered[..m - 1], TimeToNext) == TourMinutes(stops[..m], leg)
    decreases m
  {
    if m > 1 {
      MinutesAlongTour(ordered, stops, leg, m - 1);
      assert ordered[..m - 1][..m - 2] == ordered[..m - 2];
      assert stops[..m][..m - 1] == stops[..m - 1];
    }
  }

  /** The entries of `ordered_stops` carry the minutes of the leg between
      the stored stops they become. */
  lemma {:induction false} TimesAlongTour(allStops: seq<PlannedStop>, routeIdx: seq<nat>, leg: (Point, Point) -> Leg,
                       ordered: seq<OrderedStop>)
    requires |ordered| == |routeIdx| >= 1 && IndicesIn(routeIdx, |allStops|)
    requires forall k :: 0 <= k < |ordered| ==> ordered[k] == OrderedAt(allStops, routeIdx, leg, k)
    ensures Sum(ordered, TimeToNext) == TourMinutes(Map(ordered, ToRouteStop), leg)
  {
    var stops := Map(ordered, ToRouteStop);
    var n := |ordered|;
    forall k | 0 <= k < n - 1
      ensures ordered[k].timeToNext == leg(stops[k].location, stops[k + 1].location).minutes
    {
      assert stops[k + 1].location == allStops[routeIdx[k + 1]].location;
    }
    MinutesAlongTour(ordered, stops, leg, n);
    assert ordered[..n] == ordered && stops[..n] == stops;
    assert ordered[..n - 1] == ordered[..n][..n - 1];
  }

  /** The stop a stored stop was planned as. */
  function AsPlanned(s: RouteStop): PlannedStop
  {
    PlannedStop(s.stopType, s.storeId, s.orderId, s.location)
  }

  /** The stored stops follow the nearest-neighbour tour of the planned
      stops: stored stop `k` is the planned stop at the tour's `k`-th index. */
  ghost predicate StoredAlong(stops: seq<RouteStop>, allStops: seq<PlannedStop>, tour: seq<nat>, leg: (Point, Point) -> Leg)
  {
    && TspSolver.NearestNeighbourTour(Map(allStops, Location), tour, leg)
    && |stops| == |tour|
    && forall k :: 0 <= k < |stops| ==> tour[k] < |allStops| && AsPlanned(stops[k]) == allStops[tour[k]]
  }

  /** Stops stored along a tour are the planned stops, each exactly once. */
  lemma EachStopOnce(stops: seq<RouteStop>, allStops: seq<PlannedStop>, tour: seq<nat>, leg: (Point, Point) -> Leg)
    requires StoredAlong(stops, allStops, tour, leg)
    ensures multiset(Map(stops, AsPlanned)) == multiset(allStops)
  {
    var at := (i: nat) => if i < |allStops| then allStops[i] else Depot;
    assert Map(stops, AsPlanned) == Map(tour, at);
    PermutationMultiset(tour, |allStops|);
    MapMultiset(tour, Range(|allStops|), at);
    assert Map(Range(|allStops|), at) == allStops;
  }

  /** The stops of `ordered_stops`, stored, follow the tour. */
  lemma StoredFollowTour(allStops: seq<PlannedStop>, routeIdx: seq<nat>, leg: (Point, Point) -> Leg, ordered: seq<OrderedStop>)
    requires TspSolver.NearestNeighbourTour(Map(allStops, Location), routeIdx, leg)
    requires |ordered| == |routeIdx| && IndicesIn(routeIdx, |allStops|)
    requires forall k :: 0 <= k < |ordered| ==> ordered[k] == OrderedAt(allStops, routeIdx, leg, k)
    ensures StoredAlong(Map(ordered, ToRouteStop), allStops, routeIdx, leg)
  {
    var stops := Map(ordered, ToRouteStop);
    forall k | 0 <= k < |stops| ensures AsPlanned(stops[k]) == allStops[routeIdx[k]] {
      assert ordered[k].stop == allStops[routeIdx[k]];
    }
  }

  /** Steps 4, 5 and 7: order the stops by the tour and store them. */
  method TourStops(allStops: seq<PlannedStop>, stores: seq<Store>, leg: (Point, Point) -> Leg)
    returns (stops: seq<RouteStop>, totalDistance: real, totalTime: real, ghost tour: seq<nat>)
    requires |allStops| >= 1 && allStops[0] == Depot && StoresFrom(allStops, stores)
    ensures StoredAlong(stops, allStops, tour, leg)
    ensures multiset(Map(stops, AsPlanned)) == multiset(allStops)
    ensures RouteShape(stops, stores, leg)
    ensures multiset(ClientOrderIds(stops)) == multiset(FlatMap(allStops, PlannedClient))
    ensures totalDistance == Sum(stops, DistanceFromPrevious)
    ensures totalTime == TourMinutes(stops, leg)
  {
    var routeIdx := TspSolver.SolveTsp(Map(allStops, Location), leg);
    assert routeIdx[0] == 0 by {
      if |allStops| <= 2 {
        assert routeIdx == Range(|allStops|);
      }
    }
    var ordered;
    ordered, totalDistance, totalTime := AssembleStops(allStops, routeIdx, leg);
    stops := Map(ordered, ToRouteStop);
    tour := routeIdx;
    StoredFollowTour(allStops, routeIdx, leg, ordered);
    EachStopOnce(stops, allStops, tour, leg);
    TourKeepsClients(allStops, routeIdx, leg, ordered);
    SumPointwise(ordered, stops, DistanceToNext, DistanceFromPrevious);
    StoredShape(allStops, routeIdx, leg, ordered, stores);
    TimesAlongTour(allStops, routeIdx, leg, ordered);
  }

  /** Steps 2 to 6 for a non-empty list of pending orders. */
  method PlanRoute(pending: seq<Order>, routeId: nat, courierId: nat, stores: seq<Store>, leg: (Point, Point) -> Leg)
    returns (route: OptimizedRoute, ghost clusters: seq<seq<Order>>, ghost members: seq<seq<nat>>,
             ghost chosen: seq<seq<Store>>, ghost tour: seq<nat>)
    requires pending != [] && OrderIdsDistinct(pending)
    ensures route.id == routeId && route.courier == courierId && !route.isActive
    ensures ClusteringService.Clustered(pending, clusters, members, ClusteringService.DefaultMaxDistanceKm, leg)
    ensures multiset(Flatten(clusters)) == multiset(pending)
    ensures ChosenFor(clusters, stores, leg, chosen)
    ensures StoredAlong(route.stops, Layout(clusters, chosen), tour, leg)
    ensures RouteShape(route.stops, stores, leg)
    ensures multiset(ClientOrderIds(route.stops)) == multiset(Map(pending, OrderId))
    ensures forall o :: o in pending ==> multiset(ClientOrderIds(route.stops))[o.id] == 1
    ensures route.totalProfit == Sum(pending, Offer)
    ensures route.totalDistance == Sum(route.stops, DistanceFromPrevious)
    ensures route.totalTime == TourMinutes(route.stops, leg)
  {
    var groups;
    groups, members := ClusterPending(pending, leg);
    clusters := groups;
    var allStops, selectedOrders;
    allStops, selectedOrders, chosen := BuildStops(groups, stores, leg);
    LayoutClients(clusters, chosen);
    LayoutStores(clusters, stores, leg, chosen);
    var stops, totalDistance, totalTime;
    stops, totalDistance, totalTime, tour := TourStops(allStops, stores, leg);
    var totalProfit := Sum(selectedOrders, Offer);
    route := OptimizedRoute(routeId, courierId, totalDistance, totalTime, totalProfit, false, stops);
    MapMultiset(selectedOrders, pending, OrderId);
    EachOrderOnce(pending, ClientOrderIds(stops));
    SumMultiset(selectedOrders, pending, Offer);
  }

  /** `calculate_optimal_route`: the ValueError when nothing is pending, else
      one new inactive route for the courier over every pending order. */
  method CalculateOptimalRoute(db: Database, courier: User, stores: seq<Store>, leg: (Point, Point) -> Leg)
    returns (out: Outcome, ghost clusters: seq<seq<Order>>, ghost members: seq<seq<nat>>,
             ghost chosen: seq<seq<Store>>, ghost tour: seq<nat>)
    requires db.Valid()
    modifies db
    ensures db.Valid() && db.orders == old(db.orders)
    ensures out.ValueError? <==> PendingUnassigned(old(db.orders)) == []
    ensures out.ValueError? ==> out.message == "Aucune commande disponible" && db.routes == old(db.routes)
    ensures out.Planned? ==> db.routes == old(db.routes) + [out.route]
    ensures out.Planned? ==> forall k :: 0 <= k < |old(db.routes)| ==> old(db.routes)[k].id != out.route.id
    ensures out.Planned? ==> out.route.courier == courier.id && !out.route.isActive
    ensures out.Planned? ==> ClusteringService.Clustered(PendingUnassigned(old(db.orders)), clusters, members,
                                                         ClusteringService.DefaultMaxDistanceKm, leg)
    ensures out.Planned? ==> multiset(Flatten(clusters)) == multiset(PendingUnassigned(old(db.orders)))
    ensures out.Planned? ==> ChosenFor(clusters, stores, leg, chosen)
    ensures out.Planned? ==> StoredAlong(out.route.stops, Layout(clusters, chosen), tour, leg)
    ensures out.Planned? ==> RouteShape(out.route.stops, stores, leg)
    ensures out.Planned? ==> multiset(ClientOrderIds(out.route.stops)) == multiset(Map(PendingUnassigned(old(db.orders)), OrderId))
    ensures out.Planned? ==> forall o :: o in PendingUnassigned(old(db.orders)) ==> multiset(ClientOrderIds(out.route.stops))[o.id] == 1
    ensures out.Planned? ==> out.route.totalProfit == Sum(PendingUnassigned(old(db.orders)), Offer)
    ensures out.Planned? ==> out.route.totalDistance == Sum(out.route.stops, DistanceFromPrevious)
    ensures out.Planned? ==> out.route.totalTime == TourMinutes(out.route.stops, leg)
  {
    var pending := PendingUnassigned(db.orders);
    if pending == [] {
      return ValueError("Aucune commande disponible"), [], [], [], [];
    }
    var route;
    route, clusters, members, chosen, tour := PlanRoute(pending, NextRouteId(db.routes), courier.id, stores, leg);
    db.routes := db.routes + [route];
    out := Planned(route);
  }
}
