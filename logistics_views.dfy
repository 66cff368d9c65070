/** backend/logistics/views.py: the routes a user may see, the status mapping
    of `calculate_route`, and route activation and deactivation, which flip
    `is_active` and then update the order of every customer stop. */
module LogisticsViews {
  import opened Common
  import opened OrderModels
  import opened AccountModels
  import opened LogisticsModels
  import opened DistanceCalculator
  import opened Tables
  import RouteOptimizationService

  /** What an action answers: a route with the HTTP status and the `status`
      text, an error with its HTTP status and `error` text, or the 404 of
      `get_object`. */
  datatype RouteResponse = Done(code: nat, status: string, route: OptimizedRoute) | Error(code: nat, error: string) | NotFound

  /** How `calculate_optimal_route` ended. */
  datatype Raised = Returned(route: OptimizedRoute) | RaisedValueError(message: string) | RaisedOther(message: string)

  predicate Visible(user: User, r: OptimizedRoute)
  {
    !IsCourier(user) || r.courier == user.id
  }

  /** `get_queryset`: a courier sees their own routes, anyone else all of them. */
  function VisibleRoutes(routes: seq<OptimizedRoute>, user: User): (r: seq<OptimizedRoute>)
    ensures !IsCourier(user) ==> r == routes
    ensures forall x :: x in r <==> x in routes && Visible(user, x)
  {
    if !IsCourier(user) then routes
    else if routes == [] then []
    else
      var last := routes[|routes| - 1];
      assert routes == routes[..|routes| - 1] + [last];
      VisibleRoutes(routes[..|routes| - 1], user) + (if Visible(user, last) then [last] else [])
  }

  /** `get_object()`: the row of route `pk`, when the queryset holds it. */
  function GetObject(routes: seq<OptimizedRoute>, user: User, pk: nat): (r: Option<nat>)
    ensures r.Some? ==> r.value < |routes| && routes[r.value].id == pk && Visible(user, routes[r.value])
  {
    var found := FindRoute(routes, pk);
    if found.Some? && Visible(user, routes[found.value]) then found else None
  }

  /** The lookup finds a route exactly when the queryset holds one with that
      key; in particular a courier never reaches another courier's route. */
  lemma GetObjectMatchesQueryset(routes: seq<OptimizedRoute>, user: User, pk: nat)
    requires RouteIdsDistinct(routes)
    ensures GetObject(routes, user, pk).Some? <==> exists r :: r in VisibleRoutes(routes, user) && r.id == pk
    ensures IsCourier(user) && GetObject(routes, user, pk).Some? ==> routes[GetObject(routes, user, pk).value].courier == user.id
  {
    var found := FindRoute(routes, pk);
    if found.Some? && Visible(user, routes[found.value]) {
      assert routes[found.value] in VisibleRoutes(routes, user);
    }
    forall r | r in VisibleRoutes(routes, user) && r.id == pk ensures GetObject(routes, user, pk).Some? {
      var k :| 0 <= k < |routes| && routes[k] == r;
      assert found.Some? && found.value == k;
    }
  }

  /** `calculate_route`'s answer: 201 with the route, 400 with the message of
      a ValueError, 500 with any other exception's message prefixed. */
  function CalculateRouteResponse(r: Raised): (resp: RouteResponse)
    ensures r.Returned? <==> resp.Done?
    ensures r.Returned? ==> resp.code == 201 && resp.route == r.route
    ensures r.RaisedValueError? ==> resp == Error(400, r.message)
    ensures r.RaisedOther? ==> resp.Error? && resp.code == 500 && |resp.error| >= |r.message|
    ensures r.RaisedOther? ==> resp.error[|resp.error| - |r.message|..] == r.message
  {
    match r
    case Returned(route) => Done(201, "", route)
    case RaisedValueError(m) => Error(400, m)
    case RaisedOther(m) => Error(500, "Erreur serveur: " + m)
  }

  /** `calculate_route` for the requesting user. */
  method CalculateRoute(db: Database, user: User, stores: seq<Store>, leg: (Point, Point) -> Leg)
    returns (resp: RouteResponse)
    requires db.Valid()
    modifies db
    ensures db.Valid() && db.orders == old(db.orders)
    ensures resp.Done? ==> resp.code == 201 && db.routes == old(db.routes) + [resp.route] && resp.route.courier == user.id
    ensures resp.Error? ==> resp == Error(400, "Aucune commande disponible") && db.routes == old(db.routes)
    ensures resp.Error? <==> RouteOptimizationService.PendingUnassigned(old(db.orders)) == []
    ensures resp.Done? <==> RouteOptimizationService.PendingUnassigned(old(db.orders)) != []
  {
    var out, clusters, members, chosen, tour := RouteOptimizationService.CalculateOptimalRoute(db, user, stores, leg);
    var raised := match out
      case Planned(route) => Returned(route)
      case ValueError(m) => RaisedValueError(m);
    resp := CalculateRouteResponse(raised);
  }

  /** The order of every customer stop with an order, in stop order. */
  function StopOrderIds(stops: seq<RouteStop>): seq<nat>
  {
    RouteOptimizationService.ClientOrderIds(stops)
  }

  /** What activation does to an order on the route. */
  function Assign(uid: nat): Order -> Order
  {
    (o: Order) => o.(courier := Some(uid), status := Assigned)
  }

  /** What deactivation does to an order on the route: undelivered orders go
      back to the pending pool, delivered ones are left alone. */
  function Release(o: Order): Order
  {
    if o.status != Delivered then o.(courier := None, status := Pending) else o
  }

  /** `orders` after `update` has been applied to every order on the stops. */
  ghost predicate UpdatedOnStops(before: seq<Order>, after: seq<Order>, ids: seq<nat>, update: Order -> Order)
  {
    && |after| == |before|
    && forall k :: 0 <= k < |before| ==> after[k] == if before[k].id in ids then update(before[k]) else before[k]
  }

  /** The loop over the customer stops: each stop that names an existing
      order has that order updated and saved. */
  method UpdateStopOrders(db: Database, stops: seq<RouteStop>, update: Order -> Order)
    requires db.Valid()
    requires forall o :: update(o).id == o.id && update(update(o)) == update(o)
    modifies db
    ensures db.Valid() && db.routes == old(db.routes)
    ensures UpdatedOnStops(old(db.orders), db.orders, StopOrderIds(stops), update)
  {
    var s := 0;
    while s < |stops|
      invariant 0 <= s <= |stops| && db.Valid() && db.routes == old(db.routes)
      invariant UpdatedOnStops(old(db.orders), db.orders, StopOrderIds(stops[..s]), update)
    {
      var stop := stops[s];
      assert stops[..s + 1][..s] == stops[..s];
      assert StopOrderIds(stops[..s + 1]) == StopOrderIds(stops[..s]) + RouteOptimizationService.StoredClient(stop);
      if stop.stopType == ClientStop && stop.orderId.Some? {
        var found := FindOrder(db.orders, stop.orderId.value);
        if found.Some? {
          var i := found.value;
          ghost var mid := db.orders;
          db.orders := db.orders[i := update(db.orders[i])];
          forall a, b | 0 <= a < b < |db.orders| ensures db.orders[a].id != db.orders[b].id {
            assert db.orders[a].id == mid[a].id && db.orders[b].id == mid[b].id;
          }
        }
      }
      s := s + 1;
    }
    assert stops[..s] == stops;
  }

  /** `activate_route`. */
  method ActivateRoute(db: Database, user: User, pk: nat) returns (resp: RouteResponse)
    requires db.Valid()
    modifies db
    ensures db.Valid()
    ensures GetObject(old(db.routes), user, pk).None? ==> resp == NotFound && db.routes == old(db.routes) && db.orders == old(db.orders)
    ensures GetObject(old(db.routes), user, pk).Some? ==>
      var i := GetObject(old(db.routes), user, pk).value;
      var route := old(db.routes)[i];
      && (route.isActive ==> resp == Error(400, "Cette route est déjà active"))
      && (!route.isActive && route.courier != user.id ==>
            resp == Error(403, "Vous ne pouvez pas activer la route d'un autre livreur"))
      && (resp.Error? ==> db.routes == old(db.routes) && db.orders == old(db.orders))
      && (resp.Done? <==> !route.isActive && route.courier == user.id)
      && (resp.Done? ==> resp == Done(200, "Route activée", route.(isActive := true))
                         && db.routes == old(db.routes)[i := resp.route]
                         && UpdatedOnStops(old(db.orders), db.orders, StopOrderIds(route.stops), Assign(user.id)))
  {
    var found := GetObject(db.routes, user, pk);
    if found.None? {
      return NotFound;
    }
    var i := found.value;
    var route := db.routes[i];
    if route.isActive {
      return Error(400, "Cette route est déjà active");
    }
    if route.courier != user.id {
      return Error(403, "Vous ne pouvez pas activer la route d'un autre livreur");
    }
    route := route.(isActive := true);
    SaveRoute(db, i, route);
    UpdateStopOrders(db, route.stops, Assign(user.id));
    resp := Done(200, "Route activée", route);
  }

  /** `deactivate_route`. */
  method DeactivateRoute(db: Database, user: User, pk: nat) returns (resp: RouteResponse)
    requires db.Valid()
    modifies db
    ensures db.Valid()
    ensures GetObject(old(db.routes), user, pk).None? ==> resp == NotFound && db.routes == old(db.routes) && db.orders == old(db.orders)
    ensures GetObject(old(db.routes), user, pk).Some? ==>
      var i := GetObject(old(db.routes), user, pk).value;
      var route := old(db.routes)[i];
      && (!route.isActive ==> resp == Error(400, "Cette route n'est pas active"))
      && (route.isActive && route.courier != user.id ==>
            resp == Error(403, "Vous ne pouvez pas désactiver la route d'un autre livreur"))
      && (resp.Error? ==> db.routes == old(db.routes) && db.orders == old(db.orders))
      && (resp.Done? <==> route.isActive && route.courier == user.id)
      && (resp.Done? ==> resp == Done(200, "Route désactivée", route.(isActive := false))
                         && db.routes == old(db.routes)[i := resp.route]
                         && UpdatedOnStops(old(db.orders), db.orders, StopOrderIds(route.stops), Release))
  {
    var found := GetObject(db.routes, user, pk);
    if found.None? {
      return NotFound;
    }
    var i := found.value;
    var route := db.routes[i];
    if !route.isActive {
      return Error(400, "Cette route n'est pas active");
    }
    if route.courier != user.id {
      return Error(403, "Vous ne pouvez pas désactiver la route d'un autre livreur");
    }
    route := route.(isActive := false);
    SaveRoute(db, i, route);
    UpdateStopOrders(db, route.stops, Release);
    resp := Done(200, "Route désactivée", route);
  }

  /** `route.save()` of a route whose key is unchanged. */
  method SaveRoute(db: Database, i: nat, route: OptimizedRoute)
    requires db.Valid() && i < |db.routes| && db.routes[i].id == route.id
    modifies db
    ensures db.Valid() && db.orders == old(db.orders) && db.routes == old(db.routes)[i := route]
  {
    ghost var before := db.routes;
    db.routes := db.routes[i := route];
    forall a, b | 0 <= a < b < |db.routes| ensures db.routes[a].id != db.routes[b].id {
      assert db.routes[a].id == before[a].id && db.routes[b].id == before[b].id;
    }
  }

  /** Activating and then deactivating a route puts every order on it back
      in the pending pool, delivered ones included: activation overwrote their
      status. */
  lemma ActivateThenDeactivate(o: Order, uid: nat)
    ensures Release(Assign(uid)(o)) == o.(courier := None, status := Pending)
  {
  }
}
