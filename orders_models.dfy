/** backend/orders/models.py: the order record, its five statuses, its
    lines and its estimated weight. */
module OrderModels {
  import opened Common

  /** `Order.Status`, stored as upper-case strings. */
  datatype Status = Pending | Assigned | PickedUp | Delivered | Cancelled

  function StatusValue(s: Status): string
  {
    match s
    case Pending => "PENDING"
    case Assigned => "ASSIGNED"
    case PickedUp => "PICKED_UP"
    case Delivered => "DELIVERED"
    case Cancelled => "CANCELLED"
  }

  /** The status whose stored string is `t`, if any. */
  function ParseStatus(t: string): Option<Status>
  {
    if t == "PENDING" then Some(Pending)
    else if t == "ASSIGNED" then Some(Assigned)
    else if t == "PICKED_UP" then Some(PickedUp)
    else if t == "DELIVERED" then Some(Delivered)
    else if t == "CANCELLED" then Some(Cancelled)
    else None
  }

  /** The choices in declaration order. */
  const AllStatuses: seq<Status> := [Pending, Assigned, PickedUp, Delivered, Cancelled]

  /** There are exactly five statuses, their stored strings are pairwise
      different, and parsing a stored string gives its status back. */
  lemma StatusChoices(s: Status, t: string)
    ensures s in AllStatuses && |AllStatuses| == 5
    ensures forall a, b :: 0 <= a < b < |AllStatuses| ==> StatusValue(AllStatuses[a]) != StatusValue(AllStatuses[b])
    ensures ParseStatus(StatusValue(s)) == Some(s)
    ensures ParseStatus(t) == Some(s) <==> t == StatusValue(s)
  {
  }

  /** One line of an order: a quantity of a catalogue item whose unit weight
      may be missing. `quantity` is a positive-integer column. */
  datatype OrderItem = OrderItem(itemId: nat, quantity: nat, unitWeightKg: Option<real>)

  /** A line created without a quantity gets quantity 1. */
  function NewOrderItem(itemId: nat, unitWeightKg: Option<real>): (oi: OrderItem)
    ensures oi.quantity == 1 && oi.itemId == itemId
    ensures LineWeight(oi) == UnitWeight(oi)
  {
    OrderItem(itemId, 1, unitWeightKg)
  }

  /** `weight_per_unit_kg or 0.0`. */
  function UnitWeight(oi: OrderItem): real
  {
    if oi.unitWeightKg.Some? then oi.unitWeightKg.value else 0.0
  }

  /** `oi.quantity * (oi.item.weight_per_unit_kg or 0.0)`. */
  function LineWeight(oi: OrderItem): real
  {
    oi.quantity as real * UnitWeight(oi)
  }

  /** The fields of an order that the core reads or writes. */
  datatype Order = Order(
    id: nat,
    customerPhone: string,
    location: Point,
    offer: real,
    status: Status,
    courier: Option<nat>,
    deliveredAt: Option<int>,
    restaurantName: string,
    restaurantLat: Option<real>,
    restaurantLng: Option<real>,
    store: Option<Point>,
    items: seq<OrderItem>)

  function OrderId(o: Order): nat { o.id }

  function Offer(o: Order): real { o.offer }

  /** An order created with every defaulted field left at its default. */
  function NewOrder(id: nat, phone: string, location: Point, offer: real, items: seq<OrderItem>): (o: Order)
    ensures o.status == Pending && o.courier.None? && o.deliveredAt.None?
    ensures o.restaurantName == "" && o.restaurantLat.None? && o.restaurantLng.None? && o.store.None?
    ensures o.id == id && o.location == location && o.offer == offer && o.items == items
  {
    Order(id, phone, location, offer, Pending, None, None, "", None, None, None, items)
  }

  /** `estimated_weight_kg()`: the sum of the line weights. */
  function EstimatedWeightKg(o: Order): real
  {
    Sum(o.items, LineWeight)
  }

  /** An order without lines weighs nothing; unit weights that are not
      negative give a weight that is not negative. */
  lemma EstimatedWeightNonNegative(o: Order)
    requires forall k :: 0 <= k < |o.items| ==> UnitWeight(o.items[k]) >= 0.0
    ensures EstimatedWeightKg(o) >= 0.0
    ensures o.items == [] ==> EstimatedWeightKg(o) == 0.0
  {
    forall k | 0 <= k < |o.items| ensures LineWeight(o.items[k]) >= 0.0 {
    }
    SumNonNegative(o.items, LineWeight);
  }

  /** A line whose unit weight is missing adds nothing, wherever it sits. */
  lemma MissingUnitWeightAddsNothing(o: Order, i: nat, itemId: nat, q: nat)
    requires i <= |o.items|
    ensures EstimatedWeightKg(o.(items := o.items[..i] + [OrderItem(itemId, q, None)] + o.items[i..]))
         == EstimatedWeightKg(o)
  {
    var line := OrderItem(itemId, q, None);
    assert o.items == o.items[..i] + o.items[i..];
    SumConcat(o.items[..i] + [line], o.items[i..], LineWeight);
    SumConcat(o.items[..i], [line], LineWeight);
    SumConcat(o.items[..i], o.items[i..], LineWeight);
    assert Sum([line], LineWeight) == 0.0 by {
      assert [line][..0] == [];
    }
  }
}
