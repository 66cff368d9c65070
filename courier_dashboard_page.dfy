/** frontend/src/pages/CourierDashboardPage.tsx: the courier's totals, the
    capacity left, which orders may be accepted, and the expanded rows. */
module CourierDashboardPage {
  import opened Common
  import OrderModels

  /** An order as the dashboard receives it; `offer` is the price text,
      `None` when it is empty; `totalWeightKg` is `None` when the field is
      missing from the answer. */
  datatype DashOrder = DashOrder(id: int, status: string, offer: Option<real>, totalWeightKg: Option<real>)

  /** `toggleExpanded`: a row id joins the set if absent, leaves it if present. */
  function ToggleExpanded(prev: set<int>, id: int): (r: set<int>)
    ensures id in r <==> id !in prev
    ensures forall x :: x != id ==> (x in r <==> x in prev)
  {
    if id in prev then prev - {id} else prev + {id}
  }

  /** Toggling the same row twice gives the set back. */
  lemma ToggleTwice(prev: set<int>, id: int)
    ensures ToggleExpanded(ToggleExpanded(prev, id), id) == prev
  {
  }

  /** `parseFloat(order.delivery_price_offer || '0')`. */
  function OfferValue(o: DashOrder): real
  {
    if o.offer.Some? then o.offer.value else 0.0
  }

  /** `totalPotential` and `completedTotal`: 0 before the list is loaded. */
  function TotalOffers(orders: Option<seq<DashOrder>>): real
  {
    if orders.None? then 0.0 else Sum(orders.value, OfferValue)
  }

  /** `order.total_weight_kg || 0`. */
  function Weight(o: DashOrder): real
  {
    if o.totalWeightKg.Some? then o.totalWeightKg.value else 0.0
  }

  /** `activeWeight`: 0 before the active list is loaded. */
  function ActiveWeight(active: Option<seq<DashOrder>>): real
  {
    if active.None? then 0.0 else Sum(active.value, Weight)
  }

  /** `user?.capacity_kg ?? 0`. */
  function Capacity(userCapacityKg: Option<real>): (c: real)
    ensures userCapacityKg.None? ==> c == 0.0
  {
    if userCapacityKg.Some? then userCapacityKg.value else 0.0
  }

  /** `Math.max(capacity - activeWeight, 0)`. */
  function RemainingCapacity(capacity: real, active: real): (r: real)
    ensures r >= 0.0 && r >= capacity - active
    ensures r == 0.0 || r == capacity - active
  {
    if capacity - active > 0.0 then capacity - active else 0.0
  }

  /** The order's weight would push the active load past the capacity. A
      missing weight makes the sum NaN, and a comparison with NaN is false. */
  predicate WouldExceed(o: DashOrder, active: real, capacity: real)
  {
    o.totalWeightKg.Some? && o.totalWeightKg.value + active > capacity
  }

  /** The accept button's `disabled`. */
  predicate AcceptDisabled(pending: bool, o: DashOrder, active: real, capacity: real)
  {
    pending || WouldExceed(o, active, capacity)
  }

  /** The "picked up" button is offered only on assigned orders. */
  predicate PickedUpOffered(o: DashOrder)
  {
    o.status == "ASSIGNED"
  }

  /** The button is offered exactly when the stored status is the backend's
      `ASSIGNED`. */
  lemma PickedUpOfferedIffAssigned(o: DashOrder)
    ensures PickedUpOffered(o) <==> OrderModels.ParseStatus(o.status) == Some(OrderModels.Assigned)
  {
  }

  /** An order of known weight whose accept button is enabled fits in the
      capacity left: accepting it keeps the active load within the capacity.
      An order without a weight is never blocked. */
  lemma {:induction false} AcceptEnabledFits(pending: bool, o: DashOrder, active: seq<DashOrder>, capacity: real)
    requires !AcceptDisabled(pending, o, ActiveWeight(Some(active)), capacity)
    ensures ActiveWeight(Some(active + [o])) <= capacity || o.totalWeightKg.None?
    ensures o.totalWeightKg.Some? ==> o.totalWeightKg.value <= RemainingCapacity(capacity, ActiveWeight(Some(active)))
  {
    assert (active + [o])[..|active|] == active;
  }

  /** Accept is disabled exactly while a request is pending or the order's
      known weight exceeds what is left; an order without a weight is
      blocked only by a pending request. */
  lemma AcceptDisabledIff(pending: bool, o: DashOrder, active: real, capacity: real)
    ensures AcceptDisabled(pending, o, active, capacity) <==>
              pending || (o.totalWeightKg.Some? && o.totalWeightKg.value > capacity - active)
    ensures o.totalWeightKg.None? ==> (AcceptDisabled(pending, o, active, capacity) <==> pending)
  {
  }

  /** With weights that are not negative, the capacity left is never more
      than the capacity itself, and a full load leaves nothing. */
  lemma {:induction false} RemainingBounded(active: seq<DashOrder>, capacity: real)
    requires capacity >= 0.0
    requires forall k :: 0 <= k < |active| ==> Weight(active[k]) >= 0.0
    ensures RemainingCapacity(capacity, ActiveWeight(Some(active))) <= capacity
    ensures ActiveWeight(Some(active)) >= capacity ==> RemainingCapacity(capacity, ActiveWeight(Some(active))) == 0.0
  {
    SumNonNegative(active, Weight);
  }

  /** Offers left empty count as nothing, wherever they sit in the list. */
  lemma {:induction false} EmptyOfferAddsNothing(orders: seq<DashOrder>, i: nat, id: int, status: string, w: Option<real>)
    requires i <= |orders|
    ensures TotalOffers(Some(orders[..i] + [DashOrder(id, status, None, w)] + orders[i..])) == TotalOffers(Some(orders))
  {
    var e := DashOrder(id, status, None, w);
    assert orders == orders[..i] + orders[i..];
    SumConcat(orders[..i] + [e], orders[i..], OfferValue);
    SumConcat(orders[..i], [e], OfferValue);
    SumConcat(orders[..i], orders[i..], OfferValue);
    assert [e][..0] == [];
  }
}
