/** backend/orders/views.py: the three order lists a courier sees and the
    accept, status-update and cancel handlers. A handler looks the order up by
    primary key, runs its checks in the order the source runs them, and on
    success changes only the fields the source saves. The authenticated user
    is given as a record; the clock is the parameter `now`. */
module OrderViews {
  import opened Common
  import opened OrderModels
  import opened AccountModels
  import opened Tables

  /** What a handler answers: the saved order, an error with its HTTP status
      and `detail` message, or the 404 of `get_object_or_404`. */
  datatype Response = Ok(order: Order) | Fail(code: nat, detail: string) | NotFound

  /** Only couriers get a non-empty list. */
  predicate IsCourierRole(user: User)
  {
    user.role == Courier
  }

  predicate IsActive(s: Status)
  {
    s == Assigned || s == PickedUp
  }

  /** The orders of `orders` that satisfy `keep`, in table order. */
  function Filter(orders: seq<Order>, keep: Order -> bool): (r: seq<Order>)
    ensures |r| <= |orders|
    ensures forall o :: o in r <==> o in orders && keep(o)
  {
    if orders == [] then []
    else
      var last := orders[|orders| - 1];
      assert orders == orders[..|orders| - 1] + [last];
      Filter(orders[..|orders| - 1], keep) + (if keep(last) then [last] else [])
  }

  /** `PendingOrdersListView.get_queryset`. */
  function PendingOrders(orders: seq<Order>, user: User): (r: seq<Order>)
    ensures !IsCourierRole(user) ==> r == []
    ensures IsCourierRole(user) ==> forall o :: o in r <==> o in orders && o.status == Pending
  {
    if !IsCourierRole(user) then [] else Filter(orders, (o: Order) => o.status == Pending)
  }

  /** `CourierActiveOrdersView.get_queryset`. */
  function ActiveOrders(orders: seq<Order>, user: User): (r: seq<Order>)
    ensures !IsCourierRole(user) ==> r == []
    ensures IsCourierRole(user) ==> forall o :: o in r <==> o in orders && o.courier == Some(user.id) && IsActive(o.status)
  {
    if !IsCourierRole(user) then [] else Filter(orders, (o: Order) => o.courier == Some(user.id) && IsActive(o.status))
  }

  /** `CourierCompletedOrdersView.get_queryset`. */
  function CompletedOrders(orders: seq<Order>, user: User): (r: seq<Order>)
    ensures !IsCourierRole(user) ==> r == []
    ensures IsCourierRole(user) ==> forall o :: o in r <==> o in orders && o.courier == Some(user.id) && o.status == Delivered
  {
    if !IsCourierRole(user) then [] else Filter(orders, (o: Order) => o.courier == Some(user.id) && o.status == Delivered)
  }

  /** The weight an order adds to courier `uid`'s load: its estimated weight
      when it is assigned to `uid` and not yet delivered, else nothing. */
  function LoadOf(uid: nat): Order -> real
  {
    (o: Order) => if o.courier == Some(uid) && IsActive(o.status) then EstimatedWeightKg(o) else 0.0
  }

  /** `current_weight` of the accept handler. */
  function CurrentWeight(orders: seq<Order>, uid: nat): real
  {
    Sum(orders, LoadOf(uid))
  }

  /** The load is the total weight of the courier's active-order list. */
  lemma {:induction false} CurrentWeightIsActiveList(orders: seq<Order>, user: User)
    requires IsCourierRole(user)
    ensures CurrentWeight(orders, user.id) == Sum(ActiveOrders(orders, user), EstimatedWeightKg)
  {
    var keep := (o: Order) => o.courier == Some(user.id) && IsActive(o.status);
    FilterSum(orders, keep, LoadOf(user.id));
  }

  lemma {:induction false} FilterSum(orders: seq<Order>, keep: Order -> bool, load: Order -> real)
    requires forall o :: load(o) == if keep(o) then EstimatedWeightKg(o) else 0.0
    ensures Sum(orders, load) == Sum(Filter(orders, keep), EstimatedWeightKg)
  {
    if orders != [] {
      var last := orders[|orders| - 1];
      FilterSum(orders[..|orders| - 1], keep, load);
      SumConcat(Filter(orders[..|orders| - 1], keep), if keep(last) then [last] else [], EstimatedWeightKg);
      assert Sum([last], EstimatedWeightKg) == EstimatedWeightKg(last) by {
        assert [last][..0] == [];
      }
    }
  }

  /** An order that passed the accept checks keeps the courier within
      capacity once it is assigned. */
  lemma AcceptKeepsCapacity(orders: seq<Order>, i: nat, user: User)
    requires i < |orders| && orders[i].status == Pending
    requires CurrentWeight(orders, user.id) + EstimatedWeightKg(orders[i]) <= user.capacityKg as real
    ensures CurrentWeight(orders[i := orders[i].(courier := Some(user.id), status := Assigned, deliveredAt := None)], user.id)
            <= user.capacityKg as real
  {
    var accepted := orders[i].(courier := Some(user.id), status := Assigned, deliveredAt := None);
    SumUpdate(orders, i, accepted, LoadOf(user.id));
  }

  /** `AcceptOrderView.post`. */
  method AcceptOrder(db: Database, user: User, pk: nat) returns (resp: Response)
    requires db.Valid()
    modifies db
    ensures db.Valid() && db.routes == old(db.routes)
    ensures FindOrder(old(db.orders), pk).None? ==> resp == NotFound && db.orders == old(db.orders)
    ensures FindOrder(old(db.orders), pk).Some? ==>
      var i := FindOrder(old(db.orders), pk).value;
      var order := old(db.orders)[i];
      var weight := EstimatedWeightKg(order);
      var current := CurrentWeight(old(db.orders), user.id);
      && (order.status != Pending ==> resp == Fail(400, "Order not pending."))
      && (order.status == Pending && !IsCourierRole(user) ==> resp == Fail(403, "Only couriers can accept orders."))
      && (order.status == Pending && IsCourierRole(user) && weight > user.capacityKg as real ==>
            resp == Fail(400, "Le poids de la commande dépasse votre capacité maximale."))
      && (order.status == Pending && IsCourierRole(user) && weight <= user.capacityKg as real &&
          current + weight > user.capacityKg as real ==>
            resp == Fail(400, "Accepter cette commande dépasserait votre capacité totale autorisée."))
      && (resp.Fail? ==> db.orders == old(db.orders))
      && (resp.Ok? <==> order.status == Pending && IsCourierRole(user) && current + weight <= user.capacityKg as real
                         && weight <= user.capacityKg as real)
      && (resp.Ok? ==> resp.order == order.(courier := Some(user.id), status := Assigned, deliveredAt := None)
                       && db.orders == old(db.orders)[i := resp.order]
                       && CurrentWeight(db.orders, user.id) <= user.capacityKg as real)
  {
    var found := FindOrder(db.orders, pk);
    if found.None? {
      return NotFound;
    }
    var i := found.value;
    var order := db.orders[i];
    if order.status != Pending {
      return Fail(400, "Order not pending.");
    }
    if !IsCourierRole(user) {
      return Fail(403, "Only couriers can accept orders.");
    }
    var orderWeight := EstimatedWeightKg(order);
    if orderWeight > user.capacityKg as real {
      return Fail(400, "Le poids de la commande dépasse votre capacité maximale.");
    }
    var currentWeight := CurrentWeight(db.orders, user.id);
    if currentWeight + orderWeight > user.capacityKg as real {
      return Fail(400, "Accepter cette commande dépasserait votre capacité totale autorisée.");
    }
    AcceptKeepsCapacity(db.orders, i, user);
    order := order.(courier := Some(user.id), status := Assigned, deliveredAt := None);
    db.orders := db.orders[i := order];
    resp := Ok(order);
  }

  /** The statuses a courier may set: `DELIVERED` and `PICKED_UP`, given as
      the raw request value. */
  function AllowedTarget(value: Option<string>): (r: Option<Status>)
    ensures r.Some? <==> value == Some("DELIVERED") || value == Some("PICKED_UP")
    ensures r.Some? ==> StatusValue(r.value) == value.value
  {
    if value == Some("DELIVERED") then Some(Delivered)
    else if value == Some("PICKED_UP") then Some(PickedUp)
    else None
  }

  /** `UpdateOrderStatusView.patch`; the current status is not checked. */
  method UpdateOrderStatus(db: Database, user: User, pk: nat, value: Option<string>, now: int) returns (resp: Response)
    requires db.Valid()
    modifies db
    ensures db.Valid() && db.routes == old(db.routes)
    ensures FindOrder(old(db.orders), pk).None? ==> resp == NotFound && db.orders == old(db.orders)
    ensures FindOrder(old(db.orders), pk).Some? ==>
      var i := FindOrder(old(db.orders), pk).value;
      var order := old(db.orders)[i];
      && (!IsCourierRole(user) ==> resp == Fail(403, "Only couriers can update order status."))
      && (IsCourierRole(user) && order.courier != Some(user.id) ==>
            resp == Fail(403, "Cette commande n'est pas associée à votre compte."))
      && (IsCourierRole(user) && order.courier == Some(user.id) && AllowedTarget(value).None? ==>
            resp == Fail(400, "Invalid status."))
      && (resp.Fail? ==> db.orders == old(db.orders))
      && (resp.Ok? <==> IsCourierRole(user) && order.courier == Some(user.id) && AllowedTarget(value).Some?)
      && (resp.Ok? ==> resp.order.status == AllowedTarget(value).value
                       && resp.order.deliveredAt == (if resp.order.status == Delivered then Some(now) else None)
                       && resp.order == order.(status := resp.order.status, deliveredAt := resp.order.deliveredAt)
                       && db.orders == old(db.orders)[i := resp.order])
  {
    var found := FindOrder(db.orders, pk);
    if found.None? {
      return NotFound;
    }
    var i := found.value;
    var order := db.orders[i];
    if !IsCourierRole(user) {
      return Fail(403, "Only couriers can update order status.");
    }
    if order.courier != Some(user.id) {
      return Fail(403, "Cette commande n'est pas associée à votre compte.");
    }
    var target := AllowedTarget(value);
    if target.None? {
      return Fail(400, "Invalid status.");
    }
    order := order.(status := target.value);
    if target.value == Delivered {
      order := order.(deliveredAt := Some(now));
    } else {
      order := order.(deliveredAt := None);
    }
    db.orders := db.orders[i := order];
    resp := Ok(order);
  }

  /** `CourierCancelOrderView.post`: the role is checked before the lookup. */
  method CancelOrder(db: Database, user: User, pk: nat) returns (resp: Response)
    requires db.Valid()
    modifies db
    ensures db.Valid() && db.routes == old(db.routes)
    ensures !IsCourierRole(user) ==> resp == Fail(403, "Only couriers can cancel assignments.") && db.orders == old(db.orders)
    ensures IsCourierRole(user) && FindOrder(old(db.orders), pk).None? ==> resp == NotFound && db.orders == old(db.orders)
    ensures IsCourierRole(user) && FindOrder(old(db.orders), pk).Some? ==>
      var i := FindOrder(old(db.orders), pk).value;
      var order := old(db.orders)[i];
      && (order.courier != Some(user.id) ==> resp == Fail(403, "Cette commande n'est pas associée à votre compte."))
      && (order.courier == Some(user.id) && !IsActive(order.status) ==>
            resp == Fail(400, "Impossible d'annuler cette commande."))
      && (resp.Fail? ==> db.orders == old(db.orders))
      && (resp.Ok? <==> order.courier == Some(user.id) && IsActive(order.status))
      && (resp.Ok? ==> resp.order == order.(courier := None, status := Pending, deliveredAt := None)
                       && db.orders == old(db.orders)[i := resp.order])
  {
    if !IsCourierRole(user) {
      return Fail(403, "Only couriers can cancel assignments.");
    }
    var found := FindOrder(db.orders, pk);
    if found.None? {
      return NotFound;
    }
    var i := found.value;
    var order := db.orders[i];
    if order.courier != Some(user.id) {
      return Fail(403, "Cette commande n'est pas associée à votre compte.");
    }
    if !IsActive(order.status) {
      return Fail(400, "Impossible d'annuler cette commande.");
    }
    order := order.(courier := None, status := Pending, deliveredAt := None);
    db.orders := db.orders[i := order];
    resp := Ok(order);
  }

  /** After a successful cancel the order is back in the pending list and out
      of the courier's active list. */
  lemma CancelReturnsToPending(orders: seq<Order>, i: nat, user: User)
    requires IsCourierRole(user) && i < |orders|
    ensures var back := orders[i].(courier := None, status := Pending, deliveredAt := None);
            back in PendingOrders(orders[i := back], user) && back !in ActiveOrders(orders[i := back], user)
  {
    var back := orders[i].(courier := None, status := Pending, deliveredAt := None);
    assert orders[i := back][i] == back;
  }
}
