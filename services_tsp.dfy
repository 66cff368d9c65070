/** `TSPSolver.solve_tsp` (backend/logistics/services.py): a nearest-neighbour
    tour over a list of locations that starts at location 0. The unvisited
    indices form a Python set, whose iteration order decides between equally
    near candidates; the model leaves that choice open. */
module TspSolver {
  import opened Common
  import opened DistanceCalculator
  import MinBy

  /** Step `k` of `route` (k >= 1) moved from `route[k-1]` to a location no
      farther than any location not visited before it. */
  ghost predicate NearestUnvisited(locations: seq<Point>, route: seq<nat>, k: nat, leg: (Point, Point) -> Leg)
    requires 1 <= k < |route| && forall t :: 0 <= t < |route| ==> route[t] < |locations|
  {
    forall j :: 0 <= j < |locations| && j !in route[..k] ==>
      leg(locations[route[k - 1]], locations[route[k]]).km <= leg(locations[route[k - 1]], locations[j]).km
  }

  /** What `solve_tsp(locations)` returns: the identity order for at most two
      locations, otherwise a tour over every location from location 0 that
      always moves to a nearest unvisited location. */
  ghost predicate NearestNeighbourTour(locations: seq<Point>, route: seq<nat>, leg: (Point, Point) -> Leg)
  {
    && (|locations| <= 2 ==> route == Range(|locations|))
    && IsPermutationOf(route, |locations|)
    && (|locations| > 2 ==> route[0] == 0)
    && (|locations| > 2 ==> forall k :: 1 <= k < |route| ==> NearestUnvisited(locations, route, k, leg))
  }

  /** `solve_tsp(locations)`. */
  method SolveTsp(locations: seq<Point>, leg: (Point, Point) -> Leg) returns (route: seq<nat>)
    ensures NearestNeighbourTour(locations, route, leg)
  {
    var n := |locations|;
    if n <= 2 {
      route := Range(n);
      return;
    }
    var all := Elems(Range(n));
    assert Distinct(Range(n));
    DistinctCard(Range(n));
    forall j: nat ensures j in all <==> j < n {
      if j < n {
        assert Range(n)[j] == j;
      }
    }
    var unvisited := all - {0};
    assert all == unvisited + {0};
    var current := 0;
    route := [0];
    while unvisited != {}
      invariant |route| >= 1 && route[0] == 0 && current == route[|route| - 1]
      invariant forall t :: 0 <= t < |route| ==> route[t] < n
      invariant Distinct(route)
      invariant forall j: nat :: j in unvisited <==> j < n && j !in route
      invariant |route| + |unvisited| == n
      invariant forall k :: 1 <= k < |route| ==> NearestUnvisited(locations, route, k, leg)
      decreases |unvisited|
    {
      var cur := current;
      var key: nat -> real := (i: nat) => if i < n then leg(locations[cur], locations[i]).km else 0.0;
      var nearest := MinBy.MinBySet(unvisited, key);
      NearestStepKept(locations, route, unvisited, nearest, leg);
      route := route + [nearest];
      unvisited := unvisited - {nearest};
      current := nearest;
    }
    forall j | 0 <= j < n ensures j in route {
      assert j !in unvisited;
    }
  }

  /** Appending a nearest unvisited location keeps every step's property. */
  lemma NearestStepKept(locations: seq<Point>, route: seq<nat>, unvisited: set<nat>, nearest: nat,
                        leg: (Point, Point) -> Leg)
    requires |route| >= 1 && forall t :: 0 <= t < |route| ==> route[t] < |locations|
    requires forall j: nat :: j in unvisited <==> j < |locations| && j !in route
    requires nearest in unvisited
    requires forall x :: x in unvisited ==>
               leg(locations[route[|route| - 1]], locations[nearest]).km
               <= leg(locations[route[|route| - 1]], locations[x]).km
    requires forall k :: 1 <= k < |route| ==> NearestUnvisited(locations, route, k, leg)
    ensures forall k :: 1 <= k < |route| + 1 ==> NearestUnvisited(locations, route + [nearest], k, leg)
  {
    var route' := route + [nearest];
    forall k | 1 <= k < |route|
      ensures NearestUnvisited(locations, route', k, leg)
    {
      assert NearestUnvisited(locations, route, k, leg);
      assert route'[..k] == route[..k];
      assert route'[k] == route[k] && route'[k - 1] == route[k - 1];
    }
    assert route'[..|route|] == route;
  }
}
