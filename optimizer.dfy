/** backend/logistics/optimizer.py: the distance of one delivery, a 0/1
    knapsack over delivery distances solved by dynamic programming, and a
    nearest-neighbour ordering of points. Distances come from an abstract
    function `dist`; the haversine formula is not part of this model. */
module Optimizer {
  import opened Common
  import MinBy

  // ---------------------------------------------------------------------
  // order_distance_km

  /** The optional restaurant of an order: either coordinate may be missing. */
  datatype Restaurant = Restaurant(lat: Option<real>, lng: Option<real>)

  /** Courier -> restaurant -> customer when the restaurant has both
      coordinates, otherwise courier -> customer. */
  function OrderDistanceKm(courier: Point, customer: Point, restaurant: Option<Restaurant>,
                           dist: (Point, Point) -> real): (d: real)
    ensures (forall a, b :: dist(a, b) >= 0.0) ==> d >= 0.0
    // a detour through the restaurant is never shorter than the direct trip
    ensures (forall a, b, c :: dist(a, c) <= dist(a, b) + dist(b, c)) ==> d >= dist(courier, customer)
  {
    if restaurant.Some? && restaurant.value.lat.Some? && restaurant.value.lng.Some? then
      var r := Point(restaurant.value.lat.value, restaurant.value.lng.value);
      dist(courier, r) + dist(r, customer)
    else
      dist(courier, customer)
  }

  /** A restaurant with a missing coordinate counts as no restaurant at all. */
  lemma PartialRestaurantIsIgnored(courier: Point, customer: Point, lat: Option<real>, lng: Option<real>,
                                   dist: (Point, Point) -> real)
    requires lat.None? || lng.None?
    ensures OrderDistanceKm(courier, customer, Some(Restaurant(lat, lng)), dist)
         == OrderDistanceKm(courier, customer, None, dist)
         == dist(courier, customer)
  {
  }

  // ---------------------------------------------------------------------
  // knapsack_max_profit

  /** A candidate delivery: its profit and its distance already scaled to
      tenths of a kilometre (`int(distance_km * 10)`). */
  datatype KnapItem = KnapItem(id: int, profit: real, weight: int)

  function Weight(s: seq<KnapItem>): int
  {
    if s == [] then 0 else Weight(s[..|s| - 1]) + s[|s| - 1].weight
  }

  function Profit(s: seq<KnapItem>): real
  {
    if s == [] then 0.0 else Profit(s[..|s| - 1]) + s[|s| - 1].profit
  }

  /** `dp[i][w]`: the table cell for the first `i` items and capacity `w`. */
  function Best(items: seq<KnapItem>, i: nat, w: int): real
    requires i <= |items|
    decreases i, 1
  {
    if i == 0 then 0.0
    else if Take(items, i, w) then Best(items, i - 1, w - items[i - 1].weight) + items[i - 1].profit
    else Best(items, i - 1, w)
  }

  /** `keep[i][w]`: item `i-1` is taken only when it fits and STRICTLY improves
      on leaving it out, so ties prefer exclusion. */
  predicate Take(items: seq<KnapItem>, i: nat, w: int)
    requires 1 <= i <= |items|
    decreases i, 0
  {
    var it := items[i - 1];
    it.weight <= w && Best(items, i - 1, w - it.weight) + it.profit > Best(items, i - 1, w)
  }

  /** The items the backward walk over `keep` collects, in input order. */
  function Recon(items: seq<KnapItem>, i: nat, w: int): seq<KnapItem>
    requires i <= |items|
  {
    if i == 0 then []
    else if Take(items, i, w) then Recon(items, i - 1, w - items[i - 1].weight) + [items[i - 1]]
    else Recon(items, i - 1, w)
  }

  /** Which of the first `i` items the backward walk keeps. */
  function ReconMask(items: seq<KnapItem>, i: nat, w: int): (m: seq<bool>)
    requires i <= |items|
    ensures |m| == i
  {
    if i == 0 then []
    else if Take(items, i, w) then ReconMask(items, i - 1, w - items[i - 1].weight) + [true]
    else ReconMask(items, i - 1, w) + [false]
  }

  lemma SelectSnoc<T>(xs: seq<T>, mask: seq<bool>, i: nat)
    requires |mask| == i && i < |xs|
    ensures Select(xs[..i + 1], mask + [true]) == Select(xs[..i], mask) + [xs[i]]
    ensures Select(xs[..i + 1], mask + [false]) == Select(xs[..i], mask)
  {
    assert xs[..i + 1][..i] == xs[..i];
    assert (mask + [true])[..i] == mask;
    assert (mask + [false])[..i] == mask;
  }

  /** The collected items are the input items picked by a mask: a
      subsequence of the input, in its original order. */
  lemma {:induction false} ReconIsSubsequence(items: seq<KnapItem>, i: nat, w: int)
    requires i <= |items|
    ensures Recon(items, i, w) == Select(items[..i], ReconMask(items, i, w))
  {
    if i > 0 {
      var w' := if Take(items, i, w) then w - items[i - 1].weight else w;
      ReconIsSubsequence(items, i - 1, w');
      SelectSnoc(items, ReconMask(items, i - 1, w'), i - 1);
    }
  }

  lemma WeightSnoc(s: seq<KnapItem>, x: KnapItem)
    ensures Weight(s + [x]) == Weight(s) + x.weight
    ensures Profit(s + [x]) == Profit(s) + x.profit
  {
    assert (s + [x])[..|s|] == s;
  }

  /** The collected items fit the capacity and earn exactly `dp[i][w]`. */
  lemma {:induction false} ReconFeasibleAndBest(items: seq<KnapItem>, i: nat, w: int)
    requires i <= |items| && w >= 0
    ensures Weight(Recon(items, i, w)) <= w
    ensures Profit(Recon(items, i, w)) == Best(items, i, w)
  {
    if i > 0 {
      if Take(items, i, w) {
        ReconFeasibleAndBest(items, i - 1, w - items[i - 1].weight);
        WeightSnoc(Recon(items, i - 1, w - items[i - 1].weight), items[i - 1]);
      } else {
        ReconFeasibleAndBest(items, i - 1, w);
      }
    }
  }

  /** `dp[i][w]` is the largest profit of any selection of the first `i` items
      whose scaled distances sum to at most `w`. */
  lemma {:induction false} BestIsOptimal(items: seq<KnapItem>, i: nat, w: int, mask: seq<bool>)
    requires i <= |items| && |mask| == i
    requires forall k :: 0 <= k < i ==> items[k].weight >= 0
    requires Weight(Select(items[..i], mask)) <= w
    ensures Profit(Select(items[..i], mask)) <= Best(items, i, w)
  {
    if i == 0 {
      assert Select(items[..i], mask) == [];
    } else {
      var m' := mask[..i - 1];
      var pre := Select(items[..i - 1], m');
      assert mask == m' + [mask[i - 1]];
      SelectSnoc(items, m', i - 1);
      SelectWeightNonNegative(items[..i - 1], m');
      if mask[i - 1] {
        WeightSnoc(pre, items[i - 1]);
        BestIsOptimal(items, i - 1, w - items[i - 1].weight, m');
      } else {
        BestIsOptimal(items, i - 1, w, m');
      }
    }
  }

  lemma {:induction false} SelectWeightNonNegative(xs: seq<KnapItem>, mask: seq<bool>)
    requires |mask| == |xs|
    requires forall k :: 0 <= k < |xs| ==> xs[k].weight >= 0
    ensures Weight(Select(xs, mask)) >= 0
  {
    if xs != [] {
      var n := |xs|;
      var pre := Select(xs[..n - 1], mask[..n - 1]);
      SelectWeightNonNegative(xs[..n - 1], mask[..n - 1]);
      if mask[n - 1] {
        assert Select(xs, mask) == pre + [xs[n - 1]];
        WeightSnoc(pre, xs[n - 1]);
      } else {
        assert Select(xs, mask) == pre + [];
        assert pre + [] == pre;
      }
    }
  }

  /** When taking item `i-1` would only tie with leaving it out, the walk leaves it out. */
  lemma TiesPreferExclusion(items: seq<KnapItem>, i: nat, w: int)
    requires 1 <= i <= |items|
    requires Best(items, i - 1, w - items[i - 1].weight) + items[i - 1].profit == Best(items, i - 1, w)
    ensures !Take(items, i, w)
    ensures Recon(items, i, w) == Recon(items, i - 1, w)
    ensures Best(items, i, w) == Best(items, i - 1, w)
  {
  }

  /** Fills the `dp`/`keep` tables row by row, then walks back from `dp[n][W]`
      collecting the kept items. `W` is `int(capacity_km * 10)`. */
  method KnapsackMaxProfit(items: seq<KnapItem>, W: int) returns (res: seq<KnapItem>)
    requires W >= 0
    requires forall k :: 0 <= k < |items| ==> items[k].weight >= 0
    ensures res == Recon(items, |items|, W)
    ensures res == Select(items, ReconMask(items, |items|, W))
    ensures items == [] ==> res == []
    ensures Weight(res) <= W
    ensures Profit(res) == Best(items, |items|, W)
    ensures forall mask :: |mask| == |items| && Weight(Select(items, mask)) <= W ==>
              Profit(Select(items, mask)) <= Profit(res)
  {
    var n := |items|;
    var dp := new real[n + 1, W + 1]((_, _) => 0.0);
    var keep := new bool[n + 1, W + 1]((_, _) => false);
    var i := 1;
    while i <= n
      invariant 1 <= i <= n + 1
      invariant TableUpTo(items, W, dp, keep, i)
      invariant forall r, c :: i <= r <= n && 0 <= c <= W ==> !keep[r, c]
    {
      FillRow(items, W, dp, keep, i);
      i := i + 1;
    }
    res := WalkBack(items, W, keep);
    assert items[..n] == items;
    ReconIsSubsequence(items, n, W);
    ReconFeasibleAndBest(items, n, W);
    forall mask | |mask| == n && Weight(Select(items, mask)) <= W
      ensures Profit(Select(items, mask)) <= Profit(res)
    {
      BestIsOptimal(items, n, W, mask);
    }
  }

  /** Rows `0 .. i-1` of `dp` and rows `1 .. i-1` of `keep` are filled in. */
  ghost predicate TableUpTo(items: seq<KnapItem>, W: int, dp: array2<real>, keep: array2<bool>, i: nat)
    reads dp, keep
  {
    && dp.Length0 == keep.Length0 == |items| + 1 && W >= 0 && dp.Length1 == keep.Length1 == W + 1
    && i <= |items| + 1
    && (forall r, c :: 0 <= r < i && 0 <= c <= W ==> dp[r, c] == Best(items, r, c))
    && (forall r, c :: 1 <= r < i && 0 <= c <= W ==> keep[r, c] == Take(items, r, c))
  }

  /** One pass of the inner `for w in range(W + 1)` loop, filling row `i`. */
  method FillRow(items: seq<KnapItem>, W: int, dp: array2<real>, keep: array2<bool>, i: nat)
    requires 1 <= i <= |items|
    requires forall k :: 0 <= k < |items| ==> items[k].weight >= 0
    requires TableUpTo(items, W, dp, keep, i)
    requires forall c :: 0 <= c <= W ==> !keep[i, c]
    modifies dp, keep
    ensures TableUpTo(items, W, dp, keep, i + 1)
    ensures forall r, c :: 0 <= r < dp.Length0 && r != i && 0 <= c <= W ==>
              dp[r, c] == old(dp[r, c]) && keep[r, c] == old(keep[r, c])
  {
    var wi := items[i - 1].weight;
    var vi := items[i - 1].profit;
    var w := 0;
    while w <= W
      invariant 0 <= w <= W + 1
      invariant TableUpTo(items, W, dp, keep, i)
      invariant forall c :: 0 <= c < w ==> dp[i, c] == Best(items, i, c) && keep[i, c] == Take(items, i, c)
      invariant forall c :: w <= c <= W ==> !keep[i, c]
      invariant forall r, c :: 0 <= r < dp.Length0 && r != i && 0 <= c <= W ==>
                  dp[r, c] == old(dp[r, c]) && keep[r, c] == old(keep[r, c])
    {
      if wi <= w && dp[i - 1, w - wi] + vi > dp[i - 1, w] {
        dp[i, w] := dp[i - 1, w - wi] + vi;
        keep[i, w] := true;
      } else {
        dp[i, w] := dp[i - 1, w];
      }
      w := w + 1;
    }
  }

  /** The reconstruction loop: from `w = W`, walk the rows downwards and take
      item `i-1` whenever `keep[i][w]` is set. The source appends while
      walking and reverses at the end; prepending builds the same list. */
  method WalkBack(items: seq<KnapItem>, W: int, keep: array2<bool>) returns (res: seq<KnapItem>)
    requires W >= 0 && keep.Length0 == |items| + 1 && keep.Length1 == W + 1
    requires forall k :: 0 <= k < |items| ==> items[k].weight >= 0
    requires forall r, c :: 1 <= r <= |items| && 0 <= c <= W ==> keep[r, c] == Take(items, r, c)
    ensures res == Recon(items, |items|, W)
  {
    var n := |items|;
    res := [];
    var w := W;
    var i := n;
    while i > 0
      invariant 0 <= i <= n && 0 <= w <= W
      invariant Recon(items, n, W) == Recon(items, i, w) + res
    {
      if keep[i, w] {
        res := [items[i - 1]] + res;
        w := w - items[i - 1].weight;
      }
      i := i - 1;
    }
  }

  // ---------------------------------------------------------------------
  // nearest_neighbor_route

  ghost predicate Increasing(s: seq<nat>)
  {
    forall a, b :: 0 <= a < b < |s| ==> s[a] < s[b]
  }

  /** The point the walk stands on before its `k`-th step. */
  function Current(start: Point, points: seq<Point>, route: seq<nat>, k: nat): Point
    requires k <= |route| && forall j :: 0 <= j < |route| ==> route[j] < |points|
  {
    if k == 0 then start else points[route[k - 1]]
  }

  /** Step `k` went to a nearest index not yet visited; among equally near
      indices it took the lowest, as `min` over the ascending list does. */
  ghost predicate NearestStep(start: Point, points: seq<Point>, route: seq<nat>, k: nat,
                              dist: (Point, Point) -> real)
    requires k < |route| && forall j :: 0 <= j < |route| ==> route[j] < |points|
  {
    var cur := Current(start, points, route, k);
    forall j :: 0 <= j < |points| && j !in route[..k] ==>
      dist(cur, points[route[k]]) < dist(cur, points[j]) ||
      (dist(cur, points[route[k]]) == dist(cur, points[j]) && route[k] <= j)
  }

  /** Visits every point once, always moving to the nearest remaining one. */
  method NearestNeighborRoute(start: Point, points: seq<Point>, dist: (Point, Point) -> real)
    returns (route: seq<nat>)
    ensures IsPermutationOf(route, |points|)
    ensures points == [] ==> route == []
    ensures forall k :: 0 <= k < |route| ==> NearestStep(start, points, route, k, dist)
  {
    var n := |points|;
    var remaining: seq<nat> := Range(n);
    route := [];
    var current := start;
    forall j: nat ensures j in remaining <==> j < n && j !in route {
      if j < n {
        assert remaining[j] == j;
      }
    }
    while remaining != []
      invariant Increasing(remaining)
      invariant forall j: nat :: j in remaining <==> j < n && j !in route
      invariant |route| + |remaining| == n
      invariant Distinct(route)
      invariant forall k :: 0 <= k < |route| ==> route[k] < n
      invariant current == Current(start, points, route, |route|)
      invariant forall k :: 0 <= k < |route| ==> NearestStep(start, points, route, k, dist)
      decreases |remaining|
    {
      var cur := current;
      var key: nat -> real := (j: nat) => if j < n then dist(cur, points[j]) else 0.0;
      var p := MinBy.MinByList(remaining, key);
      var nearest := remaining[p];
      forall k | 0 <= k < |remaining| ensures remaining[k] < n {
        assert remaining[k] in remaining;
      }
      assert forall k :: 0 <= k < |remaining| ==> key(remaining[k]) == dist(cur, points[remaining[k]]);
      assert nearest in remaining;
      NearestStepHolds(start, points, route, remaining, p, dist);
      route := route + [nearest];
      current := points[nearest];
      remaining := remaining[..p] + remaining[p + 1..];
    }
  }

  /** The choice made by `MinByList` over the ascending `remaining` list
      satisfies `NearestStep`, and earlier steps are not disturbed. */
  lemma NearestStepHolds(start: Point, points: seq<Point>, route: seq<nat>, remaining: seq<nat>, p: nat,
                         dist: (Point, Point) -> real)
    requires Increasing(remaining) && p < |remaining|
    requires forall j: nat :: j in remaining <==> j < |points| && j !in route
    requires forall k :: 0 <= k < |remaining| ==> remaining[k] < |points|
    requires forall k :: 0 <= k < |route| ==> route[k] < |points|
    requires forall k :: 0 <= k < |remaining| ==>
               dist(Current(start, points, route, |route|), points[remaining[p]])
               <= dist(Current(start, points, route, |route|), points[remaining[k]])
    requires forall k :: 0 <= k < p ==>
               dist(Current(start, points, route, |route|), points[remaining[p]])
               < dist(Current(start, points, route, |route|), points[remaining[k]])
    requires forall k :: 0 <= k < |route| ==> NearestStep(start, points, route, k, dist)
    ensures forall k :: 0 <= k <= |route| ==> NearestStep(start, points, route + [remaining[p]], k, dist)
  {
    var route' := route + [remaining[p]];
    forall k | 0 <= k < |route|
      ensures NearestStep(start, points, route', k, dist)
    {
      assert NearestStep(start, points, route, k, dist);
      assert route'[..k] == route[..k];
      assert route'[k] == route[k];
      if k > 0 {
        assert route'[k - 1] == route[k - 1];
      }
      assert Current(start, points, route', k) == Current(start, points, route, k);
    }
    var cur := Current(start, points, route, |route|);
    assert Current(start, points, route', |route|) == cur;
    assert route'[..|route|] == route;
    forall j | 0 <= j < |points| && j !in route
      ensures dist(cur, points[remaining[p]]) < dist(cur, points[j]) ||
              (dist(cur, points[remaining[p]]) == dist(cur, points[j]) && remaining[p] <= j)
    {
      assert j in remaining;
      var q :| 0 <= q < |remaining| && remaining[q] == j;
      if q < p {
        assert dist(cur, points[remaining[p]]) < dist(cur, points[j]);
      } else if q > p {
        assert remaining[p] < j;
      }
    }
  }
}
