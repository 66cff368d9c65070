/** `StoreSelectionService.find_optimal_stores` (backend/logistics/services.py):
    the three stores nearest to the centre of a cluster of orders. The store
    table is a parameter, listed in its default order (by name). */
module StoreSelectionService {
  import opened Common
  import opened OrderModels
  import opened LogisticsModels
  import opened DistanceCalculator
  import Sorting

  function Lat(o: Order): real { o.location.lat }

  function Lng(o: Order): real { o.location.lng }

  /** The mean of the cluster's coordinates. */
  function Centroid(cluster: seq<Order>): Point
    requires cluster != []
  {
    Point(Sum(cluster, Lat) / |cluster| as real, Sum(cluster, Lng) / |cluster| as real)
  }

  /** The distance the source sorts by: from the centroid to the store. */
  function StoreDistance(centre: Point, s: Store, leg: (Point, Point) -> Leg): real
  {
    leg(centre, s.location).km
  }

  /** The distance to `centre`, as a key on stores. */
  function DistanceFrom(centre: Point, leg: (Point, Point) -> Leg): Store -> real
  {
    (s: Store) => StoreDistance(centre, s, leg)
  }

  /** What `find_optimal_stores` promises: nothing for an empty cluster,
      otherwise the stores nearest to the centroid. */
  ghost predicate NearestStores(cluster: seq<Order>, stores: seq<Store>, leg: (Point, Point) -> Leg, r: seq<Store>)
  {
    if cluster == [] then r == [] else NearestTo(Centroid(cluster), stores, leg, r)
  }

  /** The stores chosen for a cluster are stores of the table. */
  lemma NearestAreListed(cluster: seq<Order>, stores: seq<Store>, leg: (Point, Point) -> Leg, r: seq<Store>)
    requires NearestStores(cluster, stores, leg, r)
    ensures forall k :: 0 <= k < |r| ==> r[k] in stores
  {
  }

  /** Three stores of the table (all of them when there are fewer), by
      distance from `centre`, with ties broken by table order. */
  ghost predicate NearestTo(centre: Point, stores: seq<Store>, leg: (Point, Point) -> Leg, r: seq<Store>)
  {
    && |r| == (if |stores| < 3 then |stores| else 3)
    && AscendingNearest(centre, stores, leg, r)
    && FirstAtEachDistance(centre, stores, leg, r)
  }

  /** Stores of the table, by ascending distance from `centre`, none farther
      than a store left out. */
  ghost predicate AscendingNearest(centre: Point, stores: seq<Store>, leg: (Point, Point) -> Leg, r: seq<Store>)
  {
    && (forall k :: 0 <= k < |r| ==> r[k] in stores)
    && (forall a, b :: 0 <= a < b < |r| ==> StoreDistance(centre, r[a], leg) <= StoreDistance(centre, r[b], leg))
    && (forall s, k :: s in stores && s !in r && 0 <= k < |r| ==>
          StoreDistance(centre, r[k], leg) <= StoreDistance(centre, s, leg))
  }

  /** Each listed store is taken at most as often as it is listed, and among
      the stores at one distance the ones taken are the first of the table,
      in table order. */
  ghost predicate FirstAtEachDistance(centre: Point, stores: seq<Store>, leg: (Point, Point) -> Leg, r: seq<Store>)
  {
    && multiset(r) <= multiset(stores)
    && forall v :: Sorting.WithKey(r, DistanceFrom(centre, leg), v) <= Sorting.WithKey(stores, DistanceFrom(centre, leg), v)
  }

  /** `find_optimal_stores(client_cluster)`: nothing for an empty cluster;
      otherwise the first three stores after a stable sort by distance to the
      centroid. */
  method FindOptimalStores(cluster: seq<Order>, stores: seq<Store>, leg: (Point, Point) -> Leg)
    returns (r: seq<Store>)
    ensures NearestStores(cluster, stores, leg, r)
  {
    if cluster == [] {
      return [];
    }
    var avgLat := Sum(cluster, Lat) / |cluster| as real;
    var avgLon := Sum(cluster, Lng) / |cluster| as real;
    var centre := Point(avgLat, avgLon);
    assert centre == Centroid(cluster);
    var pairs := StoreDistances(centre, stores, leg);
    var sorted := Sorting.SortBy(pairs, ByDistance);
    var m := if |sorted| < 3 then |sorted| else 3;
    r := Map(sorted[..m], StoreOf);
    ChosenAreNearest(cluster, stores, leg, pairs, sorted, m, r);
  }

  /** The stores of the first three sorted pairs meet `NearestStores`. */
  lemma ChosenAreNearest(cluster: seq<Order>, stores: seq<Store>, leg: (Point, Point) -> Leg,
                         pairs: seq<(Store, real)>, sorted: seq<(Store, real)>, m: nat, r: seq<Store>)
    requires cluster != [] && PairsOf(Centroid(cluster), stores, leg, pairs)
    requires sorted == Sorting.SortBy(pairs, ByDistance)
    requires m == (if |sorted| < 3 then |sorted| else 3) && r == Map(sorted[..m], StoreOf)
    ensures NearestStores(cluster, stores, leg, r)
  {
    var centre := Centroid(cluster);
    NearestFirst(centre, stores, leg, pairs, sorted, r);
    FirstOfEachDistance(centre, stores, leg, pairs, sorted, m);
    assert NearestTo(centre, stores, leg, r);
  }

  function StoreOf(x: (Store, real)): Store { x.0 }

  function ByDistance(x: (Store, real)): real { x.1 }

  /** The loop that pairs every store with its distance to `centre`. */
  method StoreDistances(centre: Point, stores: seq<Store>, leg: (Point, Point) -> Leg)
    returns (pairs: seq<(Store, real)>)
    ensures PairsOf(centre, stores, leg, pairs)
  {
    pairs := [];
    var k := 0;
    while k < |stores|
      invariant 0 <= k <= |stores| && |pairs| == k
      invariant forall t :: 0 <= t < k ==> pairs[t] == (stores[t], StoreDistance(centre, stores[t], leg))
    {
      var d := leg(centre, stores[k].location).km;
      pairs := pairs + [(stores[k], d)];
      k := k + 1;
    }
  }

  /** Every pair of `pairs` is a store and its distance to `centre`. */
  ghost predicate PairsOf(centre: Point, stores: seq<Store>, leg: (Point, Point) -> Leg, pairs: seq<(Store, real)>)
  {
    && |pairs| == |stores|
    && forall t :: 0 <= t < |stores| ==> pairs[t] == (stores[t], StoreDistance(centre, stores[t], leg))
  }

  /** Taking the first `m` sorted pairs keeps, for each distance, the first
      stores of the table at that distance, and no store more often than it
      is listed. */
  lemma FirstOfEachDistance(centre: Point, stores: seq<Store>, leg: (Point, Point) -> Leg,
                            pairs: seq<(Store, real)>, sorted: seq<(Store, real)>, m: nat)
    requires PairsOf(centre, stores, leg, pairs)
    requires sorted == Sorting.SortBy(pairs, ByDistance) && m <= |sorted|
    ensures FirstAtEachDistance(centre, stores, leg, Map(sorted[..m], StoreOf))
  {
    TopFromTable(centre, stores, leg, pairs, sorted, m);
    forall v ensures Sorting.WithKey(Map(sorted[..m], StoreOf), DistanceFrom(centre, leg), v)
                     <= Sorting.WithKey(stores, DistanceFrom(centre, leg), v) {
      TopAtDistance(centre, stores, leg, pairs, sorted, m, v);
    }
  }

  /** The table is the stores of its pairs, and each sorted pair carries the
      distance of its store. */
  lemma PairsKeyed(centre: Point, stores: seq<Store>, leg: (Point, Point) -> Leg,
                   pairs: seq<(Store, real)>, sorted: seq<(Store, real)>)
    requires PairsOf(centre, stores, leg, pairs) && multiset(sorted) == multiset(pairs)
    ensures stores == Map(pairs, StoreOf)
    ensures forall t :: 0 <= t < |pairs| ==> DistanceFrom(centre, leg)(StoreOf(pairs[t])) == ByDistance(pairs[t])
    ensures forall t :: 0 <= t < |sorted| ==> DistanceFrom(centre, leg)(StoreOf(sorted[t])) == ByDistance(sorted[t])
  {
    forall t | 0 <= t < |sorted|
      ensures DistanceFrom(centre, leg)(StoreOf(sorted[t])) == ByDistance(sorted[t])
    {
      assert sorted[t] in multiset(pairs);
      var q :| 0 <= q < |pairs| && pairs[q] == sorted[t];
    }
  }

  lemma TopFromTable(centre: Point, stores: seq<Store>, leg: (Point, Point) -> Leg,
                     pairs: seq<(Store, real)>, sorted: seq<(Store, real)>, m: nat)
    requires PairsOf(centre, stores, leg, pairs)
    requires multiset(sorted) == multiset(pairs) && m <= |sorted|
    ensures multiset(Map(sorted[..m], StoreOf)) <= multiset(stores)
  {
    PairsKeyed(centre, stores, leg, pairs, sorted);
    assert sorted == sorted[..m] + sorted[m..];
    MapConcat(sorted[..m], sorted[m..], StoreOf);
    MapMultiset(sorted, pairs, StoreOf);
  }

  lemma TopAtDistance(centre: Point, stores: seq<Store>, leg: (Point, Point) -> Leg,
                      pairs: seq<(Store, real)>, sorted: seq<(Store, real)>, m: nat, v: real)
    requires PairsOf(centre, stores, leg, pairs)
    requires sorted == Sorting.SortBy(pairs, ByDistance) && m <= |sorted|
    ensures Sorting.WithKey(Map(sorted[..m], StoreOf), DistanceFrom(centre, leg), v)
            <= Sorting.WithKey(stores, DistanceFrom(centre, leg), v)
  {
    var d := DistanceFrom(centre, leg);
    PairsKeyed(centre, stores, leg, pairs, sorted);
    var top := sorted[..m];
    assert forall t :: 0 <= t < |top| ==> top[t] == sorted[t];
    Sorting.WithKeyMap(top, StoreOf, ByDistance, d, v);
    Sorting.WithKeyPrefix(sorted, m, ByDistance, v);
    Sorting.SortByStable(pairs, ByDistance, v);
    Sorting.WithKeyMap(pairs, StoreOf, ByDistance, d, v);
    MapPrefix(Sorting.WithKey(top, ByDistance, v), Sorting.WithKey(sorted, ByDistance, v), StoreOf);
  }

  /** The stores of the first three pairs of the sorted list are stores of the
      table, by ascending distance, and no other store is nearer. */
  lemma NearestFirst(centre: Point, stores: seq<Store>, leg: (Point, Point) -> Leg,
                     pairs: seq<(Store, real)>, sorted: seq<(Store, real)>, r: seq<Store>)
    requires PairsOf(centre, stores, leg, pairs)
    requires Sorting.SortedBy(sorted, ByDistance) && multiset(sorted) == multiset(pairs)
    requires |r| == (if |sorted| < 3 then |sorted| else 3)
    requires forall t :: 0 <= t < |r| ==> r[t] == sorted[t].0
    ensures AscendingNearest(centre, stores, leg, r)
  {
    forall t | 0 <= t < |sorted|
      ensures sorted[t].0 in stores && sorted[t].1 == StoreDistance(centre, sorted[t].0, leg)
    {
      assert sorted[t] in multiset(pairs);
      var q :| 0 <= q < |pairs| && pairs[q] == sorted[t];
    }
    forall a, b | 0 <= a < b < |r|
      ensures StoreDistance(centre, r[a], leg) <= StoreDistance(centre, r[b], leg)
    {
      assert ByDistance(sorted[a]) <= ByDistance(sorted[b]);
    }
    forall s, k | s in stores && s !in r && 0 <= k < |r|
      ensures StoreDistance(centre, r[k], leg) <= StoreDistance(centre, s, leg)
    {
      var p :| 0 <= p < |stores| && stores[p] == s;
      assert pairs[p] in multiset(sorted);
      var q :| 0 <= q < |sorted| && sorted[q] == pairs[p];
      assert q >= |r| by {
        assert forall t :: 0 <= t < |r| ==> r[t] in r;
      }
      assert ByDistance(sorted[k]) <= ByDistance(sorted[q]);
    }
  }
}
