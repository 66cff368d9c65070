/** `KnapsackSolver.solve_knapsack` (backend/logistics/services.py): a
    depth-first branch and bound over items `{id, weight, value}` with a fixed
    capacity of 10000 (grams). The search records a new best only when a leaf
    strictly beats it, so every recorded selection is feasible and its value is
    the sum of its items. Its `bound` is a greedy fill of the remaining
    capacity: the value of one feasible completion, which can be below the best
    completion (see `GreedyBoundUnderestimates`), so the pruning can drop the
    optimum and optimality is not claimed. The source's shared `selected` list
    and its `nonlocal` best are threaded through the recursion as values. */
module KnapsackSolver {
  import opened Common

  const MaxCapacity: int := 10000

  datatype Item = Item(id: int, weight: int, value: real)

  /** The returned dictionary `{selected, total_weight, total_value}`. */
  datatype Solution = Solution(selected: seq<int>, totalWeight: int, totalValue: real)

  function Ids(s: seq<Item>): (r: seq<int>)
    ensures |r| == |s|
  {
    if s == [] then [] else Ids(s[..|s| - 1]) + [s[|s| - 1].id]
  }

  function Weight(s: seq<Item>): int
  {
    if s == [] then 0 else Weight(s[..|s| - 1]) + s[|s| - 1].weight
  }

  function Value(s: seq<Item>): real
  {
    if s == [] then 0.0 else Value(s[..|s| - 1]) + s[|s| - 1].value
  }

  predicate PositiveWeights(items: seq<Item>)
  {
    forall k :: 0 <= k < |items| ==> items[k].weight > 0
  }

  ghost predicate DistinctIds(items: seq<Item>)
  {
    forall a, b :: 0 <= a < b < |items| ==> items[a].id != items[b].id
  }

  // ---------------------------------------------------------------------
  // bound

  /** The `for j in range(i, n)` loop: every later item that still fits is added. */
  function GreedyFill(items: seq<Item>, j: nat, remaining: int, value: real): real
    decreases |items| - j
  {
    if j >= |items| then value
    else if items[j].weight <= remaining then GreedyFill(items, j + 1, remaining - items[j].weight, value + items[j].value)
    else GreedyFill(items, j + 1, remaining, value)
  }

  /** `bound(i, current_weight, current_value)`. */
  function GreedyBound(items: seq<Item>, i: nat, w: int, v: real): real
  {
    if w >= MaxCapacity then v else GreedyFill(items, i, MaxCapacity - w, v)
  }

  method Bound(items: seq<Item>, i: nat, w: int, v: real) returns (b: real)
    ensures b == GreedyBound(items, i, w, v)
  {
    if w >= MaxCapacity {
      return v;
    }
    var remainingCapacity := MaxCapacity - w;
    var remainingValue := v;
    var j := i;
    while j < |items|
      invariant GreedyFill(items, j, remainingCapacity, remainingValue) == GreedyFill(items, i, MaxCapacity - w, v)
      decreases |items| - j
    {
      if items[j].weight <= remainingCapacity {
        remainingCapacity := remainingCapacity - items[j].weight;
        remainingValue := remainingValue + items[j].value;
      }
      j := j + 1;
    }
    b := remainingValue;
  }

  /** With values that are not negative, the bound is never below the value so far. */
  lemma {:induction false} GreedyFillAtLeastValue(items: seq<Item>, j: nat, remaining: int, value: real)
    requires forall k :: 0 <= k < |items| ==> items[k].value >= 0.0
    ensures GreedyFill(items, j, remaining, value) >= value
    decreases |items| - j
  {
    if j < |items| {
      if items[j].weight <= remaining {
        GreedyFillAtLeastValue(items, j + 1, remaining - items[j].weight, value + items[j].value);
      } else {
        GreedyFillAtLeastValue(items, j + 1, remaining, value);
      }
    }
  }

  lemma GreedyBoundAtLeastCurrent(items: seq<Item>, i: nat, w: int, v: real)
    requires forall k :: 0 <= k < |items| ==> items[k].value >= 0.0
    ensures GreedyBound(items, i, w, v) >= v
  {
    if w < MaxCapacity {
      GreedyFillAtLeastValue(items, i, MaxCapacity - w, v);
    }
  }

  /** With a full knapsack no item of positive weight fits any more. */
  lemma {:induction false} NothingFitsWhenFull(items: seq<Item>, j: nat, remaining: int, value: real)
    requires PositiveWeights(items) && remaining <= 0
    ensures GreedyFill(items, j, remaining, value) == value
    decreases |items| - j
  {
    if j < |items| {
      NothingFitsWhenFull(items, j + 1, remaining, value);
    }
  }

  /** The child the search visits first keeps the bound of its parent: take
      item `i` when it fits, otherwise skip it. Along this path the bound is
      the greedy fill of the whole knapsack. */
  lemma GreedyChildKeepsBound(items: seq<Item>, i: nat, w: int, v: real)
    requires i < |items| && PositiveWeights(items) && w <= MaxCapacity
    ensures w + items[i].weight <= MaxCapacity ==>
              GreedyBound(items, i + 1, w + items[i].weight, v + items[i].value) == GreedyBound(items, i, w, v)
    ensures w + items[i].weight > MaxCapacity ==> GreedyBound(items, i + 1, w, v) == GreedyBound(items, i, w, v)
  {
    if w + items[i].weight == MaxCapacity {
      NothingFitsWhenFull(items, i + 1, 0, v + items[i].value);
    }
  }

  /** Items X(10000 g, 6), Y(6000 g, 1), Z(5000 g, 4), W(5000 g, 4). */
  const Example: seq<Item> := [Item(1, 10000, 6.0), Item(2, 6000, 1.0), Item(3, 5000, 4.0), Item(4, 5000, 4.0)]

  /** Once the search has recorded {X} with value 6, the node that excludes X
      has bound 1, so it is pruned, although below it Z and W together fit and
      are worth 8. */
  lemma GreedyBoundUnderestimates()
    ensures GreedyBound(Example, 1, 0, 0.0) == 1.0
    ensures Weight(Select(Example, [true, false, false, false])) <= MaxCapacity
    ensures Value(Select(Example, [true, false, false, false])) == 6.0
    ensures Weight(Select(Example, [false, false, true, true])) <= MaxCapacity
    ensures Value(Select(Example, [false, false, true, true])) == 8.0
  {
    ExampleBound();
    ExampleTakeX();
    ExampleTakeZW();
  }

  lemma ExampleBound()
    ensures GreedyBound(Example, 1, 0, 0.0) == 1.0
  {
    assert GreedyFill(Example, 3, 4000, 1.0) == GreedyFill(Example, 4, 4000, 1.0) == 1.0;
    assert GreedyFill(Example, 2, 4000, 1.0) == GreedyFill(Example, 3, 4000, 1.0);
    assert GreedyFill(Example, 1, 10000, 0.0) == GreedyFill(Example, 2, 4000, 1.0);
  }

  lemma ExampleTakeX()
    ensures Select(Example, [true, false, false, false]) == [Example[0]]
    ensures Weight([Example[0]]) == 10000 && Value([Example[0]]) == 6.0
  {
    var x := [true, false, false, false];
    assert Example[..3][..2][..1][..0] == [] && x[..3][..2][..1][..0] == [];
    assert x[..3] == [true, false, false] && x[..3][..2] == [true, false] && x[..3][..2][..1] == [true];
    assert Select(Example[..3][..2][..1], [true]) == [Example[0]];
    assert Select(Example[..3][..2], [true, false]) == [Example[0]];
    assert Select(Example[..3], [true, false, false]) == [Example[0]];
    assert [Example[0]][..0] == [];
  }

  lemma ExampleTakeZW()
    ensures Select(Example, [false, false, true, true]) == [Example[2], Example[3]]
    ensures Weight([Example[2], Example[3]]) == 10000 && Value([Example[2], Example[3]]) == 8.0
  {
    var zw := [false, false, true, true];
    assert Example[..3][..2][..1][..0] == [] && zw[..3][..2][..1][..0] == [];
    assert zw[..3] == [false, false, true] && zw[..3][..2] == [false, false] && zw[..3][..2][..1] == [false];
    assert Select(Example[..3][..2][..1], [false]) == [];
    assert Select(Example[..3][..2], [false, false]) == [];
    assert Select(Example[..3], [false, false, true]) == [Example[2]];
    assert [Example[2]] + [Example[3]] == [Example[2], Example[3]];
    assert [] + [Example[2]] == [Example[2]];
    WeightSnoc([], Example[2]);
    WeightSnoc([Example[2]], Example[3]);
    ValueSnoc([], Example[2]);
    ValueSnoc([Example[2]], Example[3]);
  }

  // ---------------------------------------------------------------------
  // backtrack

  /** `selected` and `value` are the ids and the total value of a selection
      of `items`, in input order, that fits in the capacity. */
  ghost predicate Feasible(items: seq<Item>, selected: seq<int>, value: real)
  {
    exists mask :: |mask| == |items| && Weight(Select(items, mask)) <= MaxCapacity &&
      selected == Ids(Select(items, mask)) && value == Value(Select(items, mask))
  }

  /** The recorded best: a feasible selection; empty exactly when its value is 0. */
  ghost predicate Recorded(items: seq<Item>, bestValue: real, bestItems: seq<int>)
  {
    bestValue >= 0.0 && Feasible(items, bestItems, bestValue) && (bestItems == [] <==> bestValue == 0.0)
  }

  /** `backtrack(i, current_weight, current_value, selected)`: the node after
      the choices `mask` on the first `i` items. Returns the new best. */
  method Backtrack(items: seq<Item>, i: nat, w: int, v: real, selected: seq<int>, ghost mask: seq<bool>,
                   bestValue: real, bestItems: seq<int>)
    returns (bestValue': real, bestItems': seq<int>)
    requires i <= |items| && |mask| == i
    requires selected == Ids(Select(items[..i], mask))
    requires w == Weight(Select(items[..i], mask)) && v == Value(Select(items[..i], mask))
    requires w <= MaxCapacity
    requires Recorded(items, bestValue, bestItems)
    ensures Recorded(items, bestValue', bestItems')
    ensures bestValue' >= bestValue
    ensures PositiveWeights(items) ==> bestValue' >= GreedyBound(items, i, w, v)
    decreases |items| - i
  {
    if i == |items| {
      if v > bestValue {
        assert items[..i] == items;
        LeafRecord(items, mask, selected);
        return v, selected;
      }
      return bestValue, bestItems;
    }
    var b := Bound(items, i, w, v);
    if b <= bestValue {
      return bestValue, bestItems;
    }
    bestValue', bestItems' := bestValue, bestItems;
    ExtendSelection(items, i, mask);
    if PositiveWeights(items) {
      GreedyChildKeepsBound(items, i, w, v);
    }
    if w + items[i].weight <= MaxCapacity {
      bestValue', bestItems' := Backtrack(items, i + 1, w + items[i].weight, v + items[i].value,
                                          selected + [items[i].id], mask + [true], bestValue', bestItems');
    }
    bestValue', bestItems' := Backtrack(items, i + 1, w, v, selected, mask + [false], bestValue', bestItems');
  }

  /** The node one level down, after taking or skipping item `i`. */
  lemma ExtendSelection(items: seq<Item>, i: nat, mask: seq<bool>)
    requires |mask| == i && i < |items|
    ensures Select(items[..i + 1], mask + [true]) == Select(items[..i], mask) + [items[i]]
    ensures Select(items[..i + 1], mask + [false]) == Select(items[..i], mask)
    ensures Ids(Select(items[..i], mask) + [items[i]]) == Ids(Select(items[..i], mask)) + [items[i].id]
    ensures Weight(Select(items[..i], mask) + [items[i]]) == Weight(Select(items[..i], mask)) + items[i].weight
    ensures Value(Select(items[..i], mask) + [items[i]]) == Value(Select(items[..i], mask)) + items[i].value
  {
    assert items[..i + 1][..i] == items[..i];
    assert (mask + [true])[..i] == mask;
    assert (mask + [false])[..i] == mask;
    var s := Select(items[..i], mask);
    assert (s + [items[i]])[..|s|] == s;
  }

  /** A leaf that beats a non-negative best is a non-empty feasible selection. */
  lemma LeafRecord(items: seq<Item>, mask: seq<bool>, selected: seq<int>)
    requires |mask| == |items| && Weight(Select(items, mask)) <= MaxCapacity
    requires selected == Ids(Select(items, mask)) && Value(Select(items, mask)) > 0.0
    ensures Recorded(items, Value(Select(items, mask)), selected)
  {
    assert Select(items, mask) != [];
  }

  /** A selection of items none of which is worth anything is worth nothing. */
  lemma {:induction false} NonPositiveValues(xs: seq<Item>, mask: seq<bool>)
    requires |mask| == |xs|
    requires forall k :: 0 <= k < |xs| ==> xs[k].value <= 0.0
    ensures Value(Select(xs, mask)) <= 0.0
  {
    if xs != [] {
      var n := |xs|;
      var pre := Select(xs[..n - 1], mask[..n - 1]);
      NonPositiveValues(xs[..n - 1], mask[..n - 1]);
      if mask[n - 1] {
        assert Select(xs, mask) == pre + [xs[n - 1]];
        assert (pre + [xs[n - 1]])[..|pre|] == pre;
      } else {
        assert Select(xs, mask) == pre + [];
        assert pre + [] == pre;
      }
    }
  }

  // ---------------------------------------------------------------------
  // total_weight

  /** `sum(item['weight'] for item in items if item['id'] in best_items)`. */
  function WeightOfIds(items: seq<Item>, ids: seq<int>): int
  {
    if items == [] then 0
    else WeightOfIds(items[..|items| - 1], ids) + (if items[|items| - 1].id in ids then items[|items| - 1].weight else 0)
  }

  lemma {:induction false} WeightOfIdsCongruent(items: seq<Item>, a: seq<int>, b: seq<int>)
    requires forall k :: 0 <= k < |items| ==> (items[k].id in a <==> items[k].id in b)
    ensures WeightOfIds(items, a) == WeightOfIds(items, b)
  {
    if items != [] {
      WeightOfIdsCongruent(items[..|items| - 1], a, b);
    }
  }

  /** The ids of a selection are the ids of the items its mask picks. */
  lemma {:induction false} IdsOfSelect(xs: seq<Item>, mask: seq<bool>, x: int)
    requires |mask| == |xs|
    ensures x in Ids(Select(xs, mask)) <==> exists k :: 0 <= k < |xs| && mask[k] && xs[k].id == x
  {
    if xs != [] {
      IdsOfSelect(xs[..|xs| - 1], mask[..|mask| - 1], x);
      IdsLast(xs, mask);
      PickedSplit(xs, mask, x);
    }
  }

  /** The ids of a selection from a non-empty list: those of the selection of
      all but the last item, then the last item's id if its mask bit is set. */
  lemma IdsLast(xs: seq<Item>, mask: seq<bool>)
    requires |mask| == |xs| && xs != []
    ensures Ids(Select(xs, mask)) == Ids(Select(xs[..|xs| - 1], mask[..|mask| - 1]))
                                     + (if mask[|mask| - 1] then [xs[|xs| - 1].id] else [])
  {
    var n := |xs|;
    var pre := Select(xs[..n - 1], mask[..n - 1]);
    if mask[n - 1] {
      assert (pre + [xs[n - 1]])[..|pre|] == pre;
    } else {
      assert pre + [] == pre;
      assert Ids(pre) + [] == Ids(pre);
    }
  }

  /** An item the mask picks is the last one or one picked from the rest. */
  lemma PickedSplit(xs: seq<Item>, mask: seq<bool>, x: int)
    requires |mask| == |xs| && xs != []
    ensures var xs', m' := xs[..|xs| - 1], mask[..|mask| - 1];
            (exists k :: 0 <= k < |xs| && mask[k] && xs[k].id == x) <==>
            (exists k :: 0 <= k < |xs'| && m'[k] && xs'[k].id == x) || (mask[|mask| - 1] && xs[|xs| - 1].id == x)
  {
    var n := |xs|;
    var xs', m' := xs[..n - 1], mask[..n - 1];
    if exists k :: 0 <= k < n && mask[k] && xs[k].id == x {
      var k :| 0 <= k < n && mask[k] && xs[k].id == x;
      if k < n - 1 {
        assert xs'[k] == xs[k] && m'[k] == mask[k];
      }
    }
    if exists k :: 0 <= k < n - 1 && m'[k] && xs'[k].id == x {
      var k :| 0 <= k < n - 1 && m'[k] && xs'[k].id == x;
      assert xs[k] == xs'[k] && mask[k] == m'[k];
    }
  }

  /** With distinct ids, summing the weights of the items whose id was
      selected gives the weight of the selection. */
  lemma {:induction false} WeightOfSelectedIds(xs: seq<Item>, mask: seq<bool>)
    requires |mask| == |xs| && DistinctIds(xs)
    ensures WeightOfIds(xs, Ids(Select(xs, mask))) == Weight(Select(xs, mask))
  {
    if xs != [] {
      var n := |xs|;
      var xs', m' := xs[..n - 1], mask[..n - 1];
      var pre := Select(xs', m');
      WeightOfSelectedIds(xs', m');
      PrefixIdsAgree(xs, mask);
      WeightOfIdsCongruent(xs', Ids(Select(xs, mask)), Ids(pre));
      LastIdSelected(xs, mask);
      if mask[n - 1] {
        SelectTaken(xs, mask);
      } else {
        SelectSkipped(xs, mask);
      }
    }
  }

  /** Selecting from a non-empty list whose last mask bit is set: the
      selection of all but the last item, then the last item. */
  lemma SelectTaken(xs: seq<Item>, mask: seq<bool>)
    requires |mask| == |xs| && xs != [] && mask[|mask| - 1]
    ensures Weight(Select(xs, mask)) == Weight(Select(xs[..|xs| - 1], mask[..|mask| - 1])) + xs[|xs| - 1].weight
  {
    var pre := Select(xs[..|xs| - 1], mask[..|mask| - 1]);
    assert Select(xs, mask) == pre + [xs[|xs| - 1]];
    WeightSnoc(pre, xs[|xs| - 1]);
  }

  /** Selecting from a non-empty list whose last mask bit is clear: the
      selection of all but the last item. */
  lemma SelectSkipped(xs: seq<Item>, mask: seq<bool>)
    requires |mask| == |xs| && xs != [] && !mask[|mask| - 1]
    ensures Select(xs, mask) == Select(xs[..|xs| - 1], mask[..|mask| - 1])
  {
    var pre := Select(xs[..|xs| - 1], mask[..|mask| - 1]);
    assert pre + [] == pre;
  }

  lemma WeightSnoc(s: seq<Item>, x: Item)
    ensures Weight(s + [x]) == Weight(s) + x.weight
  {
    assert (s + [x])[..|s|] == s;
  }

  lemma ValueSnoc(s: seq<Item>, x: Item)
    ensures Value(s + [x]) == Value(s) + x.value
  {
    assert (s + [x])[..|s|] == s;
  }

  /** With distinct ids, the last item's id is selected exactly when its mask bit is set. */
  lemma LastIdSelected(xs: seq<Item>, mask: seq<bool>)
    requires |mask| == |xs| && DistinctIds(xs) && xs != []
    ensures xs[|xs| - 1].id in Ids(Select(xs, mask)) <==> mask[|mask| - 1]
  {
    var n := |xs|;
    IdsOfSelect(xs, mask, xs[n - 1].id);
    if xs[n - 1].id in Ids(Select(xs, mask)) {
      var t :| 0 <= t < n && mask[t] && xs[t].id == xs[n - 1].id;
      assert t == n - 1;
    }
  }

  /** With distinct ids, an earlier item's id is selected from the whole list
      exactly when it is selected from the list without the last item. */
  lemma PrefixIdsAgree(xs: seq<Item>, mask: seq<bool>)
    requires |mask| == |xs| && DistinctIds(xs) && xs != []
    ensures var xs', m' := xs[..|xs| - 1], mask[..|mask| - 1];
            forall k :: 0 <= k < |xs'| ==> (xs'[k].id in Ids(Select(xs, mask)) <==> xs'[k].id in Ids(Select(xs', m')))
  {
    var n := |xs|;
    var xs', m' := xs[..n - 1], mask[..n - 1];
    var ids, pre := Ids(Select(xs, mask)), Ids(Select(xs', m'));
    forall k | 0 <= k < |xs'| ensures (xs'[k].id in ids <==> xs'[k].id in pre) {
      IdsOfSelect(xs, mask, xs'[k].id);
      IdsOfSelect(xs', m', xs'[k].id);
      if xs'[k].id in ids {
        var t :| 0 <= t < n && mask[t] && xs[t].id == xs'[k].id;
        assert t == k;
        assert m'[k] && xs'[k].id == xs'[k].id;
      }
      if xs'[k].id in pre {
        var t :| 0 <= t < n - 1 && m'[t] && xs'[t].id == xs'[k].id;
        assert mask[t] && xs[t].id == xs'[k].id;
      }
    }
  }

  // ---------------------------------------------------------------------
  // solve_knapsack

  /** `solve_knapsack(items)`. */
  method SolveKnapsack(items: seq<Item>) returns (sol: Solution)
    ensures Feasible(items, sol.selected, sol.totalValue)
    ensures sol.totalValue >= 0.0 && (sol.selected == [] <==> sol.totalValue == 0.0)
    ensures (forall k :: 0 <= k < |items| ==> items[k].value <= 0.0) ==> sol.selected == [] && sol.totalValue == 0.0
    ensures DistinctIds(items) ==> sol.totalWeight <= MaxCapacity
    ensures sol.totalWeight == WeightOfIds(items, sol.selected)
    ensures PositiveWeights(items) ==> sol.totalValue >= GreedyBound(items, 0, 0, 0.0)
  {
    var none := seq(|items|, _ => false);
    NothingSelected(items, none);
    assert items[..0] == [];
    var bestValue, bestItems := Backtrack(items, 0, 0, 0.0, [], [], 0.0, []);
    var totalWeight := WeightOfIds(items, bestItems);
    sol := Solution(bestItems, totalWeight, bestValue);
    var mask :| |mask| == |items| && Weight(Select(items, mask)) <= MaxCapacity &&
      bestItems == Ids(Select(items, mask)) && bestValue == Value(Select(items, mask));
    if forall k :: 0 <= k < |items| ==> items[k].value <= 0.0 {
      NonPositiveValues(items, mask);
    }
    if DistinctIds(items) {
      WeightOfSelectedIds(items, mask);
    }
  }

  /** The all-false mask selects nothing. */
  lemma {:induction false} NothingSelected(xs: seq<Item>, mask: seq<bool>)
    requires |mask| == |xs| && forall k :: 0 <= k < |mask| ==> !mask[k]
    ensures Select(xs, mask) == []
  {
    if xs != [] {
      NothingSelected(xs[..|xs| - 1], mask[..|mask| - 1]);
    }
  }
}
