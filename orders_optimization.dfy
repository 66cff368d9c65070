/** backend/orders/optimization.py: a breadth-first branch-and-bound 0/1
    knapsack over orders (value = offer, weight = estimated weight) and a
    nearest-neighbour tour from the courier through the stores and customers. */
module OrdersOptimization {
  import opened Common
  import opened OrderModels
  import opened Sorting
  import MinBy

  /** The tuple `(original_index, value, weight)`. */
  datatype BbItem = BbItem(index: nat, value: real, weight: real)

  /** A `KnapsackNode`. Its `bound` is computed before the node is built
      rather than assigned just after. `level` is -1 at the root. */
  datatype Node = Node(level: int, profit: real, weight: real, bound: real, taken: seq<nat>)

  predicate PositiveWeights(items: seq<BbItem>)
  {
    forall k :: 0 <= k < |items| ==> items[k].weight > 0.0
  }

  /** The greedy fill of `compute_bound` from item `j` on: whole items while
      they fit, then the fitting fraction of the first one that does not. */
  function Fill(items: seq<BbItem>, j: nat, capacity: real, totWeight: real, profitBound: real): real
    requires PositiveWeights(items)
    decreases |items| - j
  {
    if j < |items| && totWeight + items[j].weight <= capacity then
      Fill(items, j + 1, capacity, totWeight + items[j].weight, profitBound + items[j].value)
    else if j < |items| then
      profitBound + (capacity - totWeight) * (items[j].value / items[j].weight)
    else
      profitBound
  }

  /** `compute_bound` of a node: 0 for a node at or over capacity. */
  function Bound(level: int, profit: real, weight: real, capacity: real, items: seq<BbItem>): real
    requires level >= -1 && PositiveWeights(items)
  {
    if weight >= capacity then 0.0 else Fill(items, level + 1, capacity, weight, profit)
  }

  function Value(x: BbItem): real { x.value }

  predicate NonNegativeValues(items: seq<BbItem>)
  {
    forall k :: 0 <= k < |items| ==> items[k].value >= 0.0
  }

  lemma {:induction false} FillAtLeast(items: seq<BbItem>, j: nat, capacity: real, totWeight: real, profitBound: real)
    requires PositiveWeights(items) && NonNegativeValues(items) && totWeight <= capacity
    ensures Fill(items, j, capacity, totWeight, profitBound) >= profitBound
    decreases |items| - j
  {
    if j < |items| && totWeight + items[j].weight <= capacity {
      FillAtLeast(items, j + 1, capacity, totWeight + items[j].weight, profitBound + items[j].value);
    } else if j < |items| {
      assert items[j].value / items[j].weight >= 0.0;
      assert (capacity - totWeight) * (items[j].value / items[j].weight) >= 0.0;
    }
  }

  lemma {:induction false} FillAtMost(items: seq<BbItem>, j: nat, capacity: real, totWeight: real, profitBound: real)
    requires PositiveWeights(items) && NonNegativeValues(items) && j <= |items|
    ensures Fill(items, j, capacity, totWeight, profitBound) <= profitBound + Sum(items[j..], Value)
    decreases |items| - j
  {
    if j < |items| {
      SumFrom(items, j);
      if totWeight + items[j].weight <= capacity {
        FillAtMost(items, j + 1, capacity, totWeight + items[j].weight, profitBound + items[j].value);
      } else {
        SumNonNegative(items[j + 1..], Value);
        PartialFraction(capacity - totWeight, items[j].weight, items[j].value);
      }
    }
  }

  /** The values from position `j` on: item `j`'s, then the rest. */
  lemma SumFrom(items: seq<BbItem>, j: nat)
    requires j < |items|
    ensures Sum(items[j..], Value) == items[j].value + Sum(items[j + 1..], Value)
  {
    assert items[j..] == [items[j]] + items[j + 1..];
    SumConcat([items[j]], items[j + 1..], Value);
    assert Sum([items[j]], Value) == items[j].value by {
      assert [items[j]][..0] == [];
    }
  }

  /** Filling less than a whole item's weight earns at most its value. */
  lemma PartialFraction(room: real, w: real, v: real)
    requires w > 0.0 && v >= 0.0 && room <= w
    ensures room * (v / w) <= v
  {
    var r := v / w;
    assert w * r == v;
    assert r >= 0.0;
    assert (w - room) * r >= 0.0;
    assert (w - room) * r == w * r - room * r;
  }

  /** With non-negative values the bound of a node under capacity is at least
      its profit and at most its profit plus every value still undecided. */
  lemma BoundBrackets(level: int, profit: real, weight: real, capacity: real, items: seq<BbItem>)
    requires -1 <= level < |items| && PositiveWeights(items) && NonNegativeValues(items)
    ensures weight >= capacity ==> Bound(level, profit, weight, capacity, items) == 0.0
    ensures weight < capacity ==> profit <= Bound(level, profit, weight, capacity, items) <= profit + Sum(items[level + 1..], Value)
  {
    if weight < capacity {
      FillAtLeast(items, level + 1, capacity, weight, profit);
      FillAtMost(items, level + 1, capacity, weight, profit);
    }
  }

  /** `compute_bound`. */
  method ComputeBound(level: int, profit: real, weight: real, capacity: real, items: seq<BbItem>) returns (b: real)
    requires level >= -1 && PositiveWeights(items)
    ensures b == Bound(level, profit, weight, capacity, items)
  {
    if weight >= capacity {
      return 0.0;
    }
    var profitBound := profit;
    var totWeight := weight;
    var j: nat := level + 1;
    while j < |items| && totWeight + items[j].weight <= capacity
      invariant level + 1 <= j
      invariant Fill(items, j, capacity, totWeight, profitBound) == Fill(items, level + 1, capacity, weight, profit)
      decreases |items| - j
    {
      totWeight := totWeight + items[j].weight;
      profitBound := profitBound + items[j].value;
      j := j + 1;
    }
    if j < |items| {
      profitBound := profitBound + (capacity - totWeight) * (items[j].value / items[j].weight);
    }
    b := profitBound;
  }

  /** Position-wise item weights and values, total over `nat`. */
  function WeightOf(items: seq<BbItem>): nat -> real
  {
    (i: nat) => if i < |items| then items[i].weight else 0.0
  }

  function ValueOf(items: seq<BbItem>): nat -> real
  {
    (i: nat) => if i < |items| then items[i].value else 0.0
  }

  ghost predicate Ascending(s: seq<nat>)
  {
    forall a, b :: 0 <= a < b < |s| ==> s[a] < s[b]
  }

  /** A node describes a decision on items `0 .. level`: `taken` lists the
      chosen positions in order, and `weight`/`profit` are their totals. */
  ghost predicate NodeOk(u: Node, items: seq<BbItem>)
  {
    && -1 <= u.level < |items|
    && Ascending(u.taken)
    && (forall k :: 0 <= k < |u.taken| ==> u.taken[k] <= u.level)
    && u.weight == Sum(u.taken, WeightOf(items))
    && u.profit == Sum(u.taken, ValueOf(items))
  }

  /** The incumbent: a feasible selection whose value is `maxProfit`, either
      empty with value 0 or of strictly positive value. */
  ghost predicate BestOk(best: seq<nat>, maxProfit: real, items: seq<BbItem>, capacity: real)
  {
    && Ascending(best)
    && (forall k :: 0 <= k < |best| ==> best[k] < |items|)
    && maxProfit == Sum(best, ValueOf(items))
    && (best == [] ==> maxProfit == 0.0)
    && (best != [] ==> maxProfit > 0.0 && Sum(best, WeightOf(items)) <= capacity)
  }

  function Pow2(d: nat): (r: nat)
    ensures r >= 1
  {
    if d == 0 then 1 else 2 * Pow2(d - 1)
  }

  /** The nodes a queued node can still spawn, itself included: a node with
      `d` undecided items spawns at most `2^(d+1) - 1`. */
  ghost function NodeWork(u: Node, n: nat): nat
  {
    if -1 <= u.level < n then Pow2(n - u.level) - 1 else 0
  }

  ghost function Work(queue: seq<Node>, n: nat): nat
  {
    if queue == [] then 0 else NodeWork(queue[0], n) + Work(queue[1..], n)
  }

  lemma {:induction false} WorkConcat(a: seq<Node>, b: seq<Node>, n: nat)
    ensures Work(a + b, n) == Work(a, n) + Work(b, n)
    decreases |a|
  {
    if a == [] {
      assert a + b == b;
    } else {
      assert (a + b)[1..] == a[1..] + b;
      WorkConcat(a[1..], b, n);
    }
  }

  lemma WorkOfChildren(children: seq<Node>, level: int, n: nat)
    requires -1 <= level < n && |children| <= 2
    requires forall k :: 0 <= k < |children| ==> children[k].level == level
    ensures Work(children, n) <= 2 * NodeWork(Node(level, 0.0, 0.0, 0.0, []), n)
  {
    if children != [] {
      assert Work(children[1..], n) <= NodeWork(Node(level, 0.0, 0.0, 0.0, []), n) by {
        if |children| == 2 {
          assert children[1..][1..] == [];
        }
      }
    }
  }

  /** Replacing a node by its two children lowers the work left. */
  lemma Branching(queue: seq<Node>, u: Node, children: seq<Node>, n: nat)
    requires -1 <= u.level < n - 1 && |children| <= 2
    requires forall k :: 0 <= k < |children| ==> children[k].level == u.level + 1
    ensures Work(queue + children, n) < Work([u] + queue, n)
  {
    WorkConcat([u], queue, n);
    WorkConcat(queue, children, n);
    WorkOfChildren(children, u.level + 1, n);
    var d: nat := n - u.level - 1;
    assert Pow2(d + 1) == 2 * Pow2(d);
    assert NodeWork(Node(u.level + 1, 0.0, 0.0, 0.0, []), n) == Pow2(d) - 1;
    assert Work([u], n) == Pow2(d + 1) - 1 by {
      assert [u][1..] == [];
    }
  }

  lemma Extend(taken: seq<nat>, i: nat, f: nat -> real)
    ensures Sum(taken + [i], f) == Sum(taken, f) + f(i)
  {
    assert (taken + [i])[..|taken|] == taken;
  }

  /** The child of `u` that takes item `u.level + 1` describes its decision. */
  lemma TakeChild(items: seq<BbItem>, u: Node, b: real)
    requires NodeOk(u, items) && u.level < |items| - 1
    ensures NodeOk(Node(u.level + 1, u.profit + items[u.level + 1].value, u.weight + items[u.level + 1].weight,
                        b, u.taken + [u.level + 1]), items)
  {
    var i: nat := u.level + 1;
    Extend(u.taken, i, WeightOf(items));
    Extend(u.taken, i, ValueOf(items));
  }

  /** The child of `u` that leaves item `u.level + 1` out describes its decision. */
  lemma SkipChild(items: seq<BbItem>, u: Node, b: real)
    requires NodeOk(u, items) && u.level < |items| - 1
    ensures NodeOk(Node(u.level + 1, u.profit, u.weight, b, u.taken), items)
  {
  }

  /** A feasible decision of higher profit than the incumbent is a valid incumbent. */
  lemma BetterBest(items: seq<BbItem>, capacity: real, v: Node, best: seq<nat>, maxProfit: real)
    requires NodeOk(v, items) && v.weight <= capacity && v.profit > maxProfit
    requires BestOk(best, maxProfit, items, capacity)
    ensures BestOk(v.taken, v.profit, items, capacity)
  {
    assert maxProfit >= 0.0;
  }

  /** One turn of the search for a node `u` that still has items to decide:
      try taking item `u.level + 1`, then queue each child whose bound beats
      the incumbent. */
  method Expand(items: seq<BbItem>, capacity: real, u: Node, best: seq<nat>, maxProfit: real)
    returns (best': seq<nat>, maxProfit': real, children: seq<Node>)
    requires PositiveWeights(items) && NodeOk(u, items) && u.level < |items| - 1
    requires BestOk(best, maxProfit, items, capacity)
    ensures BestOk(best', maxProfit', items, capacity)
    ensures maxProfit' >= maxProfit
    ensures u.weight + items[u.level + 1].weight <= capacity ==> maxProfit' >= u.profit + items[u.level + 1].value
    ensures |children| <= 2
    ensures forall k :: 0 <= k < |children| ==> NodeOk(children[k], items) && children[k].level == u.level + 1
  {
    best', maxProfit' := best, maxProfit;
    var vLevel: nat := u.level + 1;
    var vWeight := u.weight + items[vLevel].weight;
    var vProfit := u.profit + items[vLevel].value;
    var vTaken := u.taken + [vLevel];
    TakeChild(items, u, 0.0);
    if vWeight <= capacity && vProfit > maxProfit {
      BetterBest(items, capacity, Node(vLevel, vProfit, vWeight, 0.0, vTaken), best, maxProfit);
      maxProfit' := vProfit;
      best' := vTaken;
    }
    children := [];
    var vBound := ComputeBound(vLevel, vProfit, vWeight, capacity, items);
    if vBound > maxProfit' {
      TakeChild(items, u, vBound);
      children := [Node(vLevel, vProfit, vWeight, vBound, vTaken)];
    }
    var wBound := ComputeBound(vLevel, u.profit, u.weight, capacity, items);
    if wBound > maxProfit' {
      SkipChild(items, u, wBound);
      children := children + [Node(vLevel, u.profit, u.weight, wBound, u.taken)];
    }
  }

  /** The breadth-first search of `knapsack_branch_and_bound` over the sorted
      items; returns `best_taken` (positions) and `max_profit`. */
  method BranchAndBound(items: seq<BbItem>, capacity: real) returns (best: seq<nat>, maxProfit: real)
    requires |items| >= 1 && PositiveWeights(items)
    ensures BestOk(best, maxProfit, items, capacity)
    ensures items[0].weight <= capacity ==> maxProfit >= items[0].value
  {
    var n := |items|;
    maxProfit := 0.0;
    best := [];
    var rootBound := ComputeBound(-1, 0.0, 0.0, capacity, items);
    var root := Node(-1, 0.0, 0.0, rootBound, []);
    var queue := [root];
    ghost var rootExpanded := false;
    while queue != []
      invariant forall k :: 0 <= k < |queue| ==> NodeOk(queue[k], items)
      invariant BestOk(best, maxProfit, items, capacity)
      invariant !rootExpanded ==> queue == [root]
      invariant rootExpanded && items[0].weight <= capacity ==> maxProfit >= items[0].value
      decreases Work(queue, n)
    {
      var u := queue[0];
      assert queue == [u] + queue[1..];
      queue := queue[1..];
      if u.level == n - 1 {
        WorkConcat([u], queue, n);
        continue;
      }
      var children;
      best, maxProfit, children := Expand(items, capacity, u, best, maxProfit);
      Branching(queue, u, children, n);
      queue := queue + children;
      rootExpanded := true;
    }
  }

  /** The item for order `i`: its offer and its estimated weight. */
  function ItemFor(orders: seq<Order>, i: nat): BbItem
    requires i < |orders|
  {
    BbItem(i, orders[i].offer, EstimatedWeightKg(orders[i]))
  }

  function MakeItems(orders: seq<Order>): (r: seq<BbItem>)
    ensures |r| == |orders| && forall k :: 0 <= k < |r| ==> r[k] == ItemFor(orders, k)
  {
    seq(|orders|, k requires 0 <= k < |orders| => ItemFor(orders, k))
  }

  /** The sort key: the value/weight ratio, negated so that an ascending
      stable sort gives Python's `sort(..., reverse=True)` order. */
  function DescendingRatio(x: BbItem): real
  {
    if x.weight > 0.0 then -(x.value / x.weight) else 0.0
  }

  /** The kinds of number the sort key meets: `delivery_price_offer` is read
      from a decimal column; `estimated_weight_kg()` is a sum of float
      products, or the int 0 of an empty sum. */
  datatype PyNumber = PyDecimal(d: real) | PyFloat(f: real) | PyInt(i: int)

  /** What Python's `a / b` gives: a value, a TypeError, or a division error. */
  datatype PyQuotient = PyValue(q: real) | PyTypeError | PyDivisionError

  function Magnitude(x: PyNumber): real
  {
    match x
    case PyDecimal(d) => d
    case PyFloat(f) => f
    case PyInt(i) => i as real
  }

  /** Python's `/` on these kinds: a Decimal does not combine with a float;
      otherwise a zero divisor raises. */
  function PyDivide(a: PyNumber, b: PyNumber): PyQuotient
  {
    if (a.PyDecimal? && b.PyFloat?) || (a.PyFloat? && b.PyDecimal?) then PyTypeError
    else if Magnitude(b) == 0.0 then PyDivisionError
    else PyValue(Magnitude(a) / Magnitude(b))
  }

  /** `order.estimated_weight_kg()` with its Python type. */
  function StoredWeight(o: Order): PyNumber
  {
    if o.items == [] then PyInt(0) else PyFloat(EstimatedWeightKg(o))
  }

  /** The sort key `x[1] / x[2]` as written, for a stored order. */
  function RatioAsWritten(o: Order): PyQuotient
  {
    PyDivide(PyDecimal(o.offer), StoredWeight(o))
  }

  /** As written, the key raises for every stored order: a TypeError when the
      order has lines, a division error when it has none. The sort computes
      the key of every element, so the function raises on every non-empty
      list of stored orders. */
  lemma AsWrittenKeyRaises(o: Order)
    ensures o.items != [] ==> RatioAsWritten(o) == PyTypeError
    ensures o.items == [] ==> RatioAsWritten(o) == PyDivisionError
    ensures !RatioAsWritten(o).PyValue?
  {
  }

  /** The key with the offer converted by `float()` first, as the profits of
      the logistics optimiser are. */
  function RatioCorrected(o: Order): PyQuotient
  {
    PyDivide(PyFloat(o.offer), StoredWeight(o))
  }

  /** Corrected, the key of an order of positive weight is a value, and it is
      the ratio the model sorts by (negated for the descending order). */
  lemma CorrectedKeyIsRatio(orders: seq<Order>, k: nat)
    requires k < |orders| && EstimatedWeightKg(orders[k]) > 0.0
    ensures RatioCorrected(orders[k]) == PyValue(-DescendingRatio(ItemFor(orders, k)))
  {
  }

  /** Every element is the item of its own order. */
  ghost predicate ItemsOf(items: seq<BbItem>, orders: seq<Order>)
  {
    forall k :: 0 <= k < |items| ==> items[k].index < |orders| && items[k] == ItemFor(orders, items[k].index)
  }

  /** `selected` consists of distinct input orders, picked by `sel`. */
  ghost predicate PicksOf(orders: seq<Order>, selected: seq<Order>, sel: seq<nat>)
  {
    && |sel| == |selected| && Distinct(sel)
    && forall k :: 0 <= k < |sel| ==> sel[k] < |orders| && selected[k] == orders[sel[k]]
  }

  lemma SortedItems(orders: seq<Order>, items: seq<BbItem>)
    requires multiset(items) == multiset(MakeItems(orders))
    requires forall o :: o in orders ==> EstimatedWeightKg(o) > 0.0
    ensures ItemsOf(items, orders) && Distinct(items) && PositiveWeights(items)
  {
    var made := MakeItems(orders);
    assert Distinct(made) by {
      forall a, b | 0 <= a < b < |made| ensures made[a] != made[b] {
        assert made[a].index == a && made[b].index == b;
      }
    }
    DistinctPermutation(made, items);
    forall k | 0 <= k < |items|
      ensures items[k].index < |orders| && items[k] == ItemFor(orders, items[k].index) && items[k].weight > 0.0
    {
      assert items[k] in multiset(made);
      var i :| 0 <= i < |made| && made[i] == items[k];
      assert orders[i] in orders;
    }
  }

  /** The orders picked by positions `best` in the sorted items. */
  lemma MapBack(orders: seq<Order>, items: seq<BbItem>, best: seq<nat>, sel: seq<nat>, selected: seq<Order>)
    requires ItemsOf(items, orders) && Distinct(items)
    requires Ascending(best) && forall k :: 0 <= k < |best| ==> best[k] < |items|
    requires |sel| == |best| && forall k :: 0 <= k < |best| ==> sel[k] == items[best[k]].index
    requires |selected| == |sel| && forall k :: 0 <= k < |sel| ==> sel[k] < |orders| && selected[k] == orders[sel[k]]
    ensures PicksOf(orders, selected, sel)
    ensures Sum(selected, EstimatedWeightKg) == Sum(best, WeightOf(items))
    ensures Sum(selected, Offer) == Sum(best, ValueOf(items))
  {
    forall a, b | 0 <= a < b < |sel| ensures sel[a] != sel[b] {
      assert items[best[a]] != items[best[b]];
      assert items[best[a]] == ItemFor(orders, sel[a]) && items[best[b]] == ItemFor(orders, sel[b]);
    }
    forall k | 0 <= k < |selected|
      ensures EstimatedWeightKg(selected[k]) == WeightOf(items)(best[k]) && Offer(selected[k]) == ValueOf(items)(best[k])
    {
      assert items[best[k]] == ItemFor(orders, sel[k]);
    }
    SumPointwise(selected, best, EstimatedWeightKg, WeightOf(items));
    SumPointwise(selected, best, Offer, ValueOf(items));
  }

  /** The first item after the sort: an order of greatest offer/weight
      ratio (the first such order, the sort being stable). */
  function FirstByRatio(orders: seq<Order>): (x: BbItem)
    requires orders != []
    ensures x in MakeItems(orders)
    ensures forall y :: y in MakeItems(orders) ==> DescendingRatio(x) <= DescendingRatio(y)
  {
    var sorted := SortBy(MakeItems(orders), DescendingRatio);
    assert sorted[0] in multiset(sorted);
    forall y | y in MakeItems(orders) ensures DescendingRatio(sorted[0]) <= DescendingRatio(y) {
      assert y in multiset(sorted);
      var k :| 0 <= k < |sorted| && sorted[k] == y;
    }
    sorted[0]
  }

  /** `knapsack_branch_and_bound`: a selection of distinct orders, empty or of
      positive total offer and within capacity. The first pop tries the first
      sorted order alone, so when it fits and is worth something the result
      is worth at least as much. Every estimated weight must be positive: the
      sort key divides by it. */
  method KnapsackBranchAndBound(capacity: real, orders: seq<Order>) returns (selected: seq<Order>)
    requires forall o :: o in orders ==> EstimatedWeightKg(o) > 0.0
    ensures orders == [] ==> selected == []
    ensures exists sel :: PicksOf(orders, selected, sel)
    ensures selected != [] ==> Sum(selected, EstimatedWeightKg) <= capacity && Sum(selected, Offer) > 0.0
    ensures orders != [] && FirstByRatio(orders).weight <= capacity && FirstByRatio(orders).value > 0.0 ==>
              selected != [] && Sum(selected, Offer) >= FirstByRatio(orders).value
  {
    if orders == [] {
      assert PicksOf(orders, [], []);
      return [];
    }
    var items := SortBy(MakeItems(orders), DescendingRatio);
    SortedItems(orders, items);
    var best, maxProfit := BranchAndBound(items, capacity);
    var sel := Map<nat, nat>(best, (i: nat) => if i < |items| then items[i].index else 0);
    selected := Map<nat, Order>(sel, (idx: nat) => if idx < |orders| then orders[idx] else orders[0]);
    MapBack(orders, items, best, sel, selected);
    assert FirstByRatio(orders) == items[0];
  }

  /** The points an order contributes: its store, when it has one, and its customer. */
  function OrderPoints(o: Order): set<Point>
  {
    (if o.store.Some? then {o.store.value} else {}) + {o.location}
  }

  /** The set `points` built by the first loop of `tsp_nearest_neighbor`. */
  function PointsOf(orders: seq<Order>): (r: set<Point>)
    ensures orders != [] ==> r != {}
  {
    if orders == [] then {}
    else
      assert orders[|orders| - 1].location in OrderPoints(orders[|orders| - 1]);
      PointsOf(orders[..|orders| - 1]) + OrderPoints(orders[|orders| - 1])
  }

  method CollectPoints(orders: seq<Order>) returns (points: set<Point>)
    ensures points == PointsOf(orders)
  {
    points := {};
    var i := 0;
    while i < |orders|
      invariant 0 <= i <= |orders| && points == PointsOf(orders[..i])
    {
      assert orders[..i + 1][..i] == orders[..i];
      var o := orders[i];
      if o.store.Some? {
        points := points + {o.store.value};
      }
      points := points + {o.location};
      i := i + 1;
    }
    assert orders[..i] == orders;
  }

  /** Step `k` of `path` went from `path[k-1]` to a point of `points` no
      farther than any point not yet visited. */
  ghost predicate NearestRemaining(points: set<Point>, path: seq<Point>, k: nat, dist: (Point, Point) -> real)
    requires 1 <= k < |path|
  {
    forall p :: p in points && p !in path[1..k] ==> dist(path[k - 1], path[k]) <= dist(path[k - 1], p)
  }

  /** `tsp_nearest_neighbor`: from the courier, repeatedly to the nearest
      point not yet visited, until every store and customer point has been
      visited once. Equally near points are chosen between arbitrarily, as
      the order of a Python set decides. */
  method TspNearestNeighbor(courier: Point, orders: seq<Order>, dist: (Point, Point) -> real) returns (path: seq<Point>)
    ensures orders == [] ==> path == [courier]
    ensures |path| >= 1 && path[0] == courier
    ensures Distinct(path[1..]) && Elems(path[1..]) == PointsOf(orders)
    ensures forall k :: 1 <= k < |path| ==> NearestRemaining(PointsOf(orders), path, k, dist)
  {
    var points := CollectPoints(orders);
    var unvisited := points;
    if unvisited == {} {
      return [courier];
    }
    path := [courier];
    var current := courier;
    while unvisited != {}
      invariant |path| >= 1 && path[0] == courier && current == path[|path| - 1]
      invariant Distinct(path[1..])
      invariant unvisited <= points && Elems(path[1..]) == points - unvisited
      invariant forall k :: 1 <= k < |path| ==> NearestRemaining(points, path, k, dist)
      decreases |unvisited|
    {
      var cur := current;
      var nearest := MinBy.MinBySet(unvisited, (p: Point) => dist(cur, p));
      NearestKept(points, path, unvisited, nearest, dist);
      path := path + [nearest];
      unvisited := unvisited - {nearest};
      current := nearest;
    }
    assert points - unvisited == points;
  }

  lemma NearestKept(points: set<Point>, path: seq<Point>, unvisited: set<Point>, nearest: Point,
                    dist: (Point, Point) -> real)
    requires |path| >= 1 && Distinct(path[1..])
    requires unvisited <= points && Elems(path[1..]) == points - unvisited
    requires nearest in unvisited
    requires forall p :: p in unvisited ==> dist(path[|path| - 1], nearest) <= dist(path[|path| - 1], p)
    requires forall k :: 1 <= k < |path| ==> NearestRemaining(points, path, k, dist)
    ensures Distinct((path + [nearest])[1..])
    ensures Elems((path + [nearest])[1..]) == points - (unvisited - {nearest})
    ensures forall k :: 1 <= k < |path| + 1 ==> NearestRemaining(points, path + [nearest], k, dist)
  {
    var path' := path + [nearest];
    assert path'[1..] == path[1..] + [nearest];
    assert nearest !in Elems(path[1..]);
    assert Elems(path'[1..]) == Elems(path[1..]) + {nearest} by {
      forall x ensures x in path'[1..] <==> x in path[1..] || x == nearest {
      }
    }
    forall k | 1 <= k < |path|
      ensures NearestRemaining(points, path', k, dist)
    {
      assert NearestRemaining(points, path, k, dist);
      assert path'[1..k] == path[1..k];
      assert path'[k] == path[k] && path'[k - 1] == path[k - 1];
    }
    assert path'[1..|path|] == path[1..];
    forall p | p in points && p !in path'[1..|path|]
      ensures dist(path'[|path| - 1], path'[|path|]) <= dist(path'[|path| - 1], p)
    {
      assert p !in Elems(path[1..]);
    }
  }
}
