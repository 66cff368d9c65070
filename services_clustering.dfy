/** `ClusteringService.cluster_clients` (backend/logistics/services.py):
    greedy geographic grouping of orders. Each order not yet placed seeds a new
    cluster, which then takes every later unplaced order within
    `max_distance_km` of the seed. */
module ClusteringService {
  import opened Common
  import opened OrderModels
  import opened DistanceCalculator

  const DefaultMaxDistanceKm: real := 3.0

  /** Cluster `c` lists order `orders[members[c][k]]` at position `k`. */
  ghost predicate Shaped(orders: seq<Order>, clusters: seq<seq<Order>>, members: seq<seq<nat>>)
  {
    && |clusters| == |members|
    && (forall c :: 0 <= c < |members| ==> |clusters[c]| == |members[c]| && members[c] != [])
    && (forall c, k :: 0 <= c < |members| && 0 <= k < |members[c]| ==>
          members[c][k] < |orders| && clusters[c][k] == orders[members[c][k]])
  }

  /** No input position is listed twice, within a cluster or across clusters. */
  ghost predicate Disjoint(members: seq<seq<nat>>)
  {
    forall c1, k1, c2, k2 ::
      (0 <= c1 < |members| && 0 <= k1 < |members[c1]| && 0 <= c2 < |members| && 0 <= k2 < |members[c2]| &&
       (c1, k1) != (c2, k2)) ==> members[c1][k1] != members[c2][k2]
  }

  ghost predicate Placed(members: seq<seq<nat>>, j: nat)
  {
    exists c :: 0 <= c < |members| && j in members[c]
  }

  /** Each cluster lists its seed first and the other members by increasing
      position; every member lies after the seed and within reach of it. */
  ghost predicate SeededWithinReach(orders: seq<Order>, members: seq<seq<nat>>, maxDistanceKm: real,
                                    leg: (Point, Point) -> Leg)
    requires forall c, k :: 0 <= c < |members| && 0 <= k < |members[c]| ==> members[c][k] < |orders|
  {
    forall c, k :: 0 <= c < |members| && 0 < k < |members[c]| ==>
      members[c][k - 1] < members[c][k] &&
      leg(orders[members[c][0]].location, orders[members[c][k]].location).km <= maxDistanceKm
  }

  /** One of the clusters before cluster `c` holds position `j`. */
  ghost predicate PlacedBefore(members: seq<seq<nat>>, c: nat, j: nat)
  {
    exists c' :: 0 <= c' < c && c' < |members| && j in members[c']
  }

  /** A cluster's seed is the first position no earlier cluster holds. */
  ghost predicate SeedIsFirstFree(members: seq<seq<nat>>)
  {
    forall c: nat, j: nat :: (c < |members| && members[c] != [] && j < members[c][0]) ==> PlacedBefore(members, c, j)
  }

  /** A cluster takes every later order within reach that no earlier cluster holds. */
  ghost predicate TakesAllInReach(orders: seq<Order>, members: seq<seq<nat>>, maxDistanceKm: real,
                                  leg: (Point, Point) -> Leg)
    requires forall c :: 0 <= c < |members| ==> members[c] != [] && members[c][0] < |orders|
  {
    forall c: nat, j: nat :: (c < |members| && members[c][0] < j < |orders| &&
      leg(orders[members[c][0]].location, orders[j].location).km <= maxDistanceKm &&
      !PlacedBefore(members, c, j)) ==> j in members[c]
  }

  /** Everything `cluster_clients` promises of its clusters, given the input
      positions `members` of their orders. */
  ghost predicate Clustered(orders: seq<Order>, clusters: seq<seq<Order>>, members: seq<seq<nat>>,
                            maxDistanceKm: real, leg: (Point, Point) -> Leg)
  {
    && Shaped(orders, clusters, members)
    && Disjoint(members)
    && (forall j :: 0 <= j < |orders| ==> Placed(members, j))
    && SeededWithinReach(orders, members, maxDistanceKm, leg)
    && SeedIsFirstFree(members)
    && TakesAllInReach(orders, members, maxDistanceKm, leg)
  }

  /** `cluster_clients(orders, max_distance_km)`. `members` gives, for each
      cluster, the input positions of its orders. */
  method ClusterClients(orders: seq<Order>, maxDistanceKm: real, leg: (Point, Point) -> Leg)
    returns (clusters: seq<seq<Order>>, members: seq<seq<nat>>)
    ensures orders == [] ==> clusters == []
    ensures Shaped(orders, clusters, members)
    ensures Disjoint(members)
    ensures forall j :: 0 <= j < |orders| ==> Placed(members, j)
    ensures SeededWithinReach(orders, members, maxDistanceKm, leg)
    ensures SeedIsFirstFree(members)
    ensures TakesAllInReach(orders, members, maxDistanceKm, leg)
    // the clusters split the orders: every order lies in exactly one cluster
    ensures multiset(Flatten(clusters)) == multiset(orders)
  {
    clusters := [];
    members := [];
    if orders == [] {
      return;
    }
    var used: set<nat> := {};
    var i := 0;
    while i < |orders|
      invariant 0 <= i <= |orders|
      invariant Progress(orders, clusters, members, used, i, maxDistanceKm, leg)
      invariant Flattened(orders, clusters, members, used)
    {
      if i !in used {
        var cluster, mem, used' := GrowCluster(orders, i, used, maxDistanceKm, leg);
        AddFlattened(orders, clusters, members, used, cluster, mem, used');
        AddCluster(orders, clusters, members, used, i, cluster, mem, used', maxDistanceKm, leg);
        clusters := clusters + [cluster];
        members := members + [mem];
        used := used';
      } else {
        SkipUsed(orders, clusters, members, used, i, maxDistanceKm, leg);
      }
      i := i + 1;
    }
    LoopDone(orders, clusters, members, used, maxDistanceKm, leg);
  }

  /** After the last position the loop's state gives every postcondition. */
  lemma LoopDone(orders: seq<Order>, clusters: seq<seq<Order>>, members: seq<seq<nat>>, used: set<nat>,
                 maxDistanceKm: real, leg: (Point, Point) -> Leg)
    requires Progress(orders, clusters, members, used, |orders|, maxDistanceKm, leg)
    requires Flattened(orders, clusters, members, used)
    ensures forall j :: 0 <= j < |orders| ==> Placed(members, j)
    ensures multiset(Flatten(clusters)) == multiset(orders)
  {
    forall j | 0 <= j < |orders| ensures Placed(members, j) {
      assert j in used;
    }
    ClustersSplitOrders(orders, clusters, members, used);
  }

  /** An already placed position leaves the loop's state as it is. */
  lemma SkipUsed(orders: seq<Order>, clusters: seq<seq<Order>>, members: seq<seq<nat>>, used: set<nat>,
                 i: nat, maxDistanceKm: real, leg: (Point, Point) -> Leg)
    requires Progress(orders, clusters, members, used, i, maxDistanceKm, leg)
    requires i in used
    ensures Progress(orders, clusters, members, used, i + 1, maxDistanceKm, leg)
  {
  }

  /** At the end of the loop the clusters hold every order exactly once. */
  lemma ClustersSplitOrders(orders: seq<Order>, clusters: seq<seq<Order>>, members: seq<seq<nat>>, used: set<nat>)
    requires Flattened(orders, clusters, members, used)
    requires forall j: nat :: j in used <==> Placed(members, j)
    requires forall c, k :: 0 <= c < |members| && 0 <= k < |members[c]| ==> members[c][k] < |orders|
    requires forall j :: 0 <= j < |orders| ==> j in used
    ensures multiset(Flatten(clusters)) == multiset(orders)
  {
    AllUsed(orders, members, used);
    MapMultiset(Flatten(members), Range(|orders|), Lookup(orders));
    assert Map(Range(|orders|), Lookup(orders)) == orders;
  }

  /** Position `j` of a non-empty list of orders. */
  function Lookup(orders: seq<Order>): nat -> Order
    requires orders != []
  {
    (j: nat) => if j < |orders| then orders[j] else orders[0]
  }

  /** Once every position is used, the clusters' positions are `0 .. n-1`, each once. */
  lemma AllUsed(orders: seq<Order>, members: seq<seq<nat>>, used: set<nat>)
    requires forall j: nat :: j in used <==> Placed(members, j)
    requires forall c, k :: 0 <= c < |members| && 0 <= k < |members[c]| ==> members[c][k] < |orders|
    requires forall j :: 0 <= j < |orders| ==> j in used
    requires Distinct(Flatten(members)) && forall x :: x in Flatten(members) <==> x in used
    ensures multiset(Flatten(members)) == multiset(Range(|orders|))
  {
    var n := |orders|;
    forall j: nat ensures j in used <==> j in Elems(Range(n)) {
      if j in used {
        var c :| 0 <= c < |members| && j in members[c];
        assert j < n;
        assert Range(n)[j] == j;
      }
      if j in Range(n) {
        var k :| 0 <= k < n && Range(n)[k] == j;
      }
    }
    assert used == Elems(Range(n));
    assert Elems(Flatten(members)) == used;
    DistinctMultiset(Range(n));
    DistinctMultiset(Flatten(members));
  }

  /** The state of the outer loop before position `i`. */
  ghost predicate Progress(orders: seq<Order>, clusters: seq<seq<Order>>, members: seq<seq<nat>>, used: set<nat>,
                           i: nat, maxDistanceKm: real, leg: (Point, Point) -> Leg)
  {
    && Shaped(orders, clusters, members)
    && Disjoint(members)
    && (forall j: nat :: j in used <==> Placed(members, j))
    && (forall j :: 0 <= j < i ==> j in used)
    && (forall c :: 0 <= c < |members| ==> members[c][0] < i)
    && SeededWithinReach(orders, members, maxDistanceKm, leg)
    && SeedIsFirstFree(members)
    && TakesAllInReach(orders, members, maxDistanceKm, leg)
  }

  /** The clusters' orders, concatenated, are the orders at the clusters'
      positions, concatenated; no position repeats and exactly the used ones occur. */
  ghost predicate Flattened(orders: seq<Order>, clusters: seq<seq<Order>>, members: seq<seq<nat>>, used: set<nat>)
  {
    && orders != []
    && Flatten(clusters) == Map(Flatten(members), Lookup(orders))
    && Distinct(Flatten(members))
    && (forall x :: x in Flatten(members) <==> x in used)
  }

  lemma AddCluster(orders: seq<Order>, clusters: seq<seq<Order>>, members: seq<seq<nat>>, used: set<nat>,
                   i: nat, cluster: seq<Order>, mem: seq<nat>, used': set<nat>,
                   maxDistanceKm: real, leg: (Point, Point) -> Leg)
    requires Progress(orders, clusters, members, used, i, maxDistanceKm, leg)
    requires GrownFrom(orders, used, i, cluster, mem, maxDistanceKm, leg)
    requires forall j: nat :: j in used' <==> j in used || j in mem
    ensures Progress(orders, clusters + [cluster], members + [mem], used', i + 1, maxDistanceKm, leg)
  {
    AddShaped(orders, clusters, members, used, i, cluster, mem, maxDistanceKm, leg);
    AddSeededWithinReach(orders, members, used, i, cluster, mem, maxDistanceKm, leg);
    AddDisjoint(members, used, mem);
    AddPlaced(members, used, mem);
    AddSeedIsFirstFree(members, used, i, mem);
    AddTakesAllInReach(orders, members, used, i, mem, maxDistanceKm, leg);
  }

  /** The inner loop: the cluster seeded at `i`, and `used` with its members added. */
  method GrowCluster(orders: seq<Order>, i: nat, used: set<nat>, maxDistanceKm: real, leg: (Point, Point) -> Leg)
    returns (cluster: seq<Order>, mem: seq<nat>, used': set<nat>)
    requires i < |orders| && i !in used
    ensures |cluster| == |mem| && mem != [] && mem[0] == i
    ensures forall k :: 0 <= k < |mem| ==> mem[k] < |orders| && cluster[k] == orders[mem[k]]
    ensures forall k :: 0 < k < |mem| ==>
              mem[k - 1] < mem[k] && mem[k] !in used &&
              leg(orders[i].location, orders[mem[k]].location).km <= maxDistanceKm
    ensures forall j :: (i < j < |orders| && j !in used &&
              leg(orders[i].location, orders[j].location).km <= maxDistanceKm) ==> j in mem
    ensures forall j: nat :: j in used' <==> j in used || j in mem
  {
    cluster := [orders[i]];
    mem := [i];
    used' := used + {i};
    var j := i + 1;
    while j < |orders|
      invariant Growing(orders, used, i, j, cluster, mem, used', maxDistanceKm, leg)
      decreases |orders| - j
    {
      if j !in used' {
        var d := leg(orders[i].location, orders[j].location).km;
        if d <= maxDistanceKm {
          GrowTake(orders, used, i, j, cluster, mem, used', maxDistanceKm, leg);
          cluster := cluster + [orders[j]];
          mem := mem + [j];
          used' := used' + {j};
        } else {
          GrowSkip(orders, used, i, j, cluster, mem, used', maxDistanceKm, leg);
        }
      } else {
        GrowSkip(orders, used, i, j, cluster, mem, used', maxDistanceKm, leg);
      }
      j := j + 1;
    }
  }

  /** The state of the inner loop before position `j`. */
  ghost predicate Growing(orders: seq<Order>, used: set<nat>, i: nat, j: nat, cluster: seq<Order>, mem: seq<nat>,
                          used': set<nat>, maxDistanceKm: real, leg: (Point, Point) -> Leg)
  {
    && i < j <= |orders|
    && |cluster| == |mem| && mem != [] && mem[0] == i
    && (forall k :: 0 <= k < |mem| ==> mem[k] < j && cluster[k] == orders[mem[k]])
    && (forall k :: 0 < k < |mem| ==>
          mem[k - 1] < mem[k] && mem[k] !in used &&
          leg(orders[i].location, orders[mem[k]].location).km <= maxDistanceKm)
    && (forall j' :: (i < j' < j && j' !in used &&
          leg(orders[i].location, orders[j'].location).km <= maxDistanceKm) ==> j' in mem)
    && (forall x: nat :: x in used' <==> x in used || x in mem)
  }

  /** Taking a free position within reach extends the cluster. */
  lemma GrowTake(orders: seq<Order>, used: set<nat>, i: nat, j: nat, cluster: seq<Order>, mem: seq<nat>,
                 used': set<nat>, maxDistanceKm: real, leg: (Point, Point) -> Leg)
    requires Growing(orders, used, i, j, cluster, mem, used', maxDistanceKm, leg)
    requires j < |orders| && j !in used' && leg(orders[i].location, orders[j].location).km <= maxDistanceKm
    ensures Growing(orders, used, i, j + 1, cluster + [orders[j]], mem + [j], used' + {j}, maxDistanceKm, leg)
  {
    var m := mem + [j];
    assert forall k :: 0 <= k < |mem| ==> m[k] == mem[k];
    assert m[|mem|] == j;
  }

  /** A position already used, or out of reach, leaves the cluster as it is. */
  lemma GrowSkip(orders: seq<Order>, used: set<nat>, i: nat, j: nat, cluster: seq<Order>, mem: seq<nat>,
                 used': set<nat>, maxDistanceKm: real, leg: (Point, Point) -> Leg)
    requires Growing(orders, used, i, j, cluster, mem, used', maxDistanceKm, leg)
    requires j < |orders| && (j in used' || leg(orders[i].location, orders[j].location).km > maxDistanceKm)
    ensures Growing(orders, used, i, j + 1, cluster, mem, used', maxDistanceKm, leg)
  {
  }

  /** What `GrowCluster` promises about the cluster it builds from seed `i`. */
  ghost predicate GrownFrom(orders: seq<Order>, used: set<nat>, i: nat, cluster: seq<Order>, mem: seq<nat>,
                            maxDistanceKm: real, leg: (Point, Point) -> Leg)
  {
    && i < |orders| && i !in used
    && |cluster| == |mem| && mem != [] && mem[0] == i
    && (forall k :: 0 <= k < |mem| ==> mem[k] < |orders| && cluster[k] == orders[mem[k]])
    && (forall k :: 0 < k < |mem| ==>
          mem[k - 1] < mem[k] && mem[k] !in used &&
          leg(orders[i].location, orders[mem[k]].location).km <= maxDistanceKm)
    && (forall j :: (i < j < |orders| && j !in used &&
          leg(orders[i].location, orders[j].location).km <= maxDistanceKm) ==> j in mem)
  }

  lemma AddShaped(orders: seq<Order>, clusters: seq<seq<Order>>, members: seq<seq<nat>>, used: set<nat>, i: nat,
                  cluster: seq<Order>, mem: seq<nat>, maxDistanceKm: real, leg: (Point, Point) -> Leg)
    requires Shaped(orders, clusters, members)
    requires forall c :: 0 <= c < |members| ==> members[c][0] < i
    requires GrownFrom(orders, used, i, cluster, mem, maxDistanceKm, leg)
    ensures Shaped(orders, clusters + [cluster], members + [mem])
    ensures forall c :: 0 <= c < |members + [mem]| ==> (members + [mem])[c][0] < i + 1
  {
    var ms := members + [mem];
    var cs := clusters + [cluster];
    assert forall c :: 0 <= c < |members| ==> ms[c] == members[c] && cs[c] == clusters[c];
    assert ms[|members|] == mem && cs[|members|] == cluster;
  }

  lemma AddFlattened(orders: seq<Order>, clusters: seq<seq<Order>>, members: seq<seq<nat>>, used: set<nat>,
                     cluster: seq<Order>, mem: seq<nat>, used': set<nat>)
    requires Flattened(orders, clusters, members, used)
    requires |cluster| == |mem| && forall k :: 0 <= k < |mem| ==> mem[k] < |orders| && cluster[k] == orders[mem[k]]
    requires forall k :: 0 < k < |mem| ==> mem[k - 1] < mem[k]
    requires forall k :: 0 <= k < |mem| ==> mem[k] !in used
    requires forall j: nat :: j in used' <==> j in used || j in mem
    ensures Flattened(orders, clusters + [cluster], members + [mem], used')
  {
    FlattenSnoc(clusters, cluster);
    FlattenSnoc(members, mem);
    MapConcat(Flatten(members), mem, Lookup(orders));
    ClusterIsLookup(orders, cluster, mem);
    DistinctAppend(Flatten(members), used, mem);
  }

  /** A cluster is the orders at its positions. */
  lemma ClusterIsLookup(orders: seq<Order>, cluster: seq<Order>, mem: seq<nat>)
    requires orders != []
    requires |cluster| == |mem| && forall k :: 0 <= k < |mem| ==> mem[k] < |orders| && cluster[k] == orders[mem[k]]
    ensures cluster == Map(mem, Lookup(orders))
  {
  }

  /** Appending increasing positions outside `used` to distinct positions,
      all in `used`, keeps them distinct. */
  lemma DistinctAppend(f: seq<nat>, used: set<nat>, mem: seq<nat>)
    requires Distinct(f) && forall x :: x in f ==> x in used
    requires forall k :: 0 < k < |mem| ==> mem[k - 1] < mem[k]
    requires forall k :: 0 <= k < |mem| ==> mem[k] !in used
    ensures Distinct(f + mem)
  {
    var g := f + mem;
    forall a, b | 0 <= a < b < |g| ensures g[a] != g[b] {
      if b < |f| {
        assert g[a] == f[a] && g[b] == f[b];
      } else if a < |f| {
        assert g[a] == f[a] && g[a] in used;
        assert g[b] == mem[b - |f|];
      } else {
        StrictlyIncreasing(mem, a - |f|, b - |f|);
      }
    }
  }

  lemma AddDisjoint(members: seq<seq<nat>>, used: set<nat>, mem: seq<nat>)
    requires Disjoint(members)
    requires forall j: nat :: j in used <==> Placed(members, j)
    requires forall k :: 0 <= k < |mem| ==> mem[k] !in used
    requires forall k :: 0 < k < |mem| ==> mem[k - 1] < mem[k]
    ensures Disjoint(members + [mem])
  {
    var ms := members + [mem];
    var c0 := |members|;
    forall c1, k1, c2, k2 |
      0 <= c1 < |ms| && 0 <= k1 < |ms[c1]| && 0 <= c2 < |ms| && 0 <= k2 < |ms[c2]| &&
      (c1, k1) != (c2, k2)
      ensures ms[c1][k1] != ms[c2][k2]
    {
      if c1 < c0 && c2 < c0 {
        assert ms[c1] == members[c1] && ms[c2] == members[c2];
      } else if c1 < c0 {
        assert ms[c1] == members[c1] && ms[c2] == mem;
        assert Placed(members, ms[c1][k1]);
      } else if c2 < c0 {
        assert ms[c2] == members[c2] && ms[c1] == mem;
        assert Placed(members, ms[c2][k2]);
      } else if k1 < k2 {
        StrictlyIncreasing(mem, k1, k2);
      } else if k2 < k1 {
        StrictlyIncreasing(mem, k2, k1);
      }
    }
  }

  lemma AddPlaced(members: seq<seq<nat>>, used: set<nat>, mem: seq<nat>)
    requires forall j: nat :: j in used <==> Placed(members, j)
    ensures forall j: nat :: j in used || j in mem <==> Placed(members + [mem], j)
  {
    var ms := members + [mem];
    forall j: nat ensures j in used || j in mem <==> Placed(ms, j) {
      if j in used {
        var c :| 0 <= c < |members| && j in members[c];
        assert ms[c] == members[c];
      }
      if j in mem {
        assert ms[|members|] == mem;
      }
      if Placed(ms, j) {
        var c :| 0 <= c < |ms| && j in ms[c];
        if c < |members| {
          assert ms[c] == members[c];
        }
      }
    }
  }

  lemma AddSeedIsFirstFree(members: seq<seq<nat>>, used: set<nat>, i: nat, mem: seq<nat>)
    requires SeedIsFirstFree(members)
    requires forall j: nat :: j in used <==> Placed(members, j)
    requires forall j :: 0 <= j < i ==> j in used
    requires mem != [] && mem[0] == i
    ensures SeedIsFirstFree(members + [mem])
  {
    var ms := members + [mem];
    forall c, j | 0 <= c < |ms| && ms[c] != [] && 0 <= j < ms[c][0]
      ensures PlacedBefore(ms, c, j)
    {
      if c < |members| {
        assert ms[c] == members[c];
        assert PlacedBefore(members, c, j);
        var c' :| 0 <= c' < c && j in members[c'];
        assert ms[c'] == members[c'];
      } else {
        assert j in used;
        var c' :| 0 <= c' < |members| && j in members[c'];
        assert ms[c'] == members[c'];
      }
    }
  }

  lemma AddTakesAllInReach(orders: seq<Order>, members: seq<seq<nat>>, used: set<nat>, i: nat, mem: seq<nat>,
                           maxDistanceKm: real, leg: (Point, Point) -> Leg)
    requires forall c :: 0 <= c < |members| ==> members[c] != [] && members[c][0] < |orders|
    requires TakesAllInReach(orders, members, maxDistanceKm, leg)
    requires forall j: nat :: j in used <==> Placed(members, j)
    requires i < |orders| && mem != [] && mem[0] == i
    requires forall j :: (i < j < |orders| && j !in used &&
               leg(orders[i].location, orders[j].location).km <= maxDistanceKm) ==> j in mem
    ensures TakesAllInReach(orders, members + [mem], maxDistanceKm, leg)
  {
    var ms := members + [mem];
    forall c, j | 0 <= c < |ms| && ms[c][0] < j < |orders| &&
      leg(orders[ms[c][0]].location, orders[j].location).km <= maxDistanceKm &&
      !PlacedBefore(ms, c, j)
      ensures j in ms[c]
    {
      forall c' | 0 <= c' < c && c' < |members| ensures j !in members[c'] {
        assert ms[c'] == members[c'];
      }
      if c < |members| {
        assert ms[c] == members[c];
        assert !PlacedBefore(members, c, j);
      } else {
        assert !Placed(members, j);
      }
    }
  }

  lemma AddSeededWithinReach(orders: seq<Order>, members: seq<seq<nat>>, used: set<nat>, i: nat,
                             cluster: seq<Order>, mem: seq<nat>, maxDistanceKm: real, leg: (Point, Point) -> Leg)
    requires forall c, k :: 0 <= c < |members| && 0 <= k < |members[c]| ==> members[c][k] < |orders|
    requires SeededWithinReach(orders, members, maxDistanceKm, leg)
    requires GrownFrom(orders, used, i, cluster, mem, maxDistanceKm, leg)
    ensures forall c, k :: 0 <= c < |members + [mem]| && 0 <= k < |(members + [mem])[c]| ==>
              (members + [mem])[c][k] < |orders|
    ensures SeededWithinReach(orders, members + [mem], maxDistanceKm, leg)
  {
    var ms := members + [mem];
    assert forall c :: 0 <= c < |members| ==> ms[c] == members[c];
    assert ms[|members|] == mem;
  }

  lemma {:induction false} StrictlyIncreasing(mem: seq<nat>, a: nat, b: nat)
    requires forall k :: 0 < k < |mem| ==> mem[k - 1] < mem[k]
    requires a < b < |mem|
    ensures mem[a] < mem[b]
    decreases b - a
  {
    if a + 1 < b {
      StrictlyIncreasing(mem, a + 1, b);
    }
  }
}
