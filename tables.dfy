/** The database tables the core reads and writes, as one in-memory object:
    the orders and the optimised routes (with their stops). Primary keys are
    unique within each table. */
module Tables {
  import opened Common
  import opened OrderModels
  import opened LogisticsModels

  ghost predicate OrderIdsDistinct(orders: seq<Order>)
  {
    forall a, b :: 0 <= a < b < |orders| ==> orders[a].id != orders[b].id
  }

  ghost predicate RouteIdsDistinct(routes: seq<OptimizedRoute>)
  {
    forall a, b :: 0 <= a < b < |routes| ==> routes[a].id != routes[b].id
  }

  /** The row whose key is `id`, if there is one (`get_object` on a table
      whose key is `key`). */
  function FindBy<T>(rows: seq<T>, key: T -> nat, id: nat): (r: Option<nat>)
    ensures r.Some? ==> r.value < |rows| && key(rows[r.value]) == id
    ensures r.None? ==> forall k :: 0 <= k < |rows| ==> key(rows[k]) != id
  {
    if rows == [] then None
    else if key(rows[|rows| - 1]) == id then Some(|rows| - 1)
    else FindBy(rows[..|rows| - 1], key, id)
  }

  function RouteKey(r: OptimizedRoute): nat { r.id }

  /** The row of the order with primary key `id`. */
  function FindOrder(orders: seq<Order>, id: nat): Option<nat>
  {
    FindBy(orders, OrderId, id)
  }

  /** The row of the route with primary key `id`. */
  function FindRoute(routes: seq<OptimizedRoute>, id: nat): Option<nat>
  {
    FindBy(routes, RouteKey, id)
  }

  /** The key the next inserted route receives: above every key in use. */
  function NextRouteId(routes: seq<OptimizedRoute>): (r: nat)
    ensures forall k :: 0 <= k < |routes| ==> routes[k].id < r
  {
    if routes == [] then 1
    else
      var rest := NextRouteId(routes[..|routes| - 1]);
      if routes[|routes| - 1].id < rest then rest else routes[|routes| - 1].id + 1
  }

  class Database {
    var orders: seq<Order>
    var routes: seq<OptimizedRoute>

    ghost predicate Valid()
      reads this
    {
      OrderIdsDistinct(orders) && RouteIdsDistinct(routes)
    }

    constructor ()
      ensures orders == [] && routes == [] && Valid()
    {
      orders := [];
      routes := [];
    }
  }
}
