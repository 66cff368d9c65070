/** backend/logistics/models.py: stores, optimised routes and their stops. */
module LogisticsModels {
  import opened Common

  datatype Store = Store(id: nat, name: string, location: Point)

  /** `RouteStop.STOP_TYPE_CHOICES`: 'store', 'client', 'depot'. */
  datatype StopType = StoreStop | ClientStop | DepotStop

  function StopTypeValue(t: StopType): string
  {
    match t
    case StoreStop => "store"
    case ClientStop => "client"
    case DepotStop => "depot"
  }

  /** One stop of a route; `sequence` is the visiting order, from 1. */
  datatype RouteStop = RouteStop(
    stopType: StopType,
    storeId: Option<nat>,
    orderId: Option<nat>,
    sequence: int,
    location: Point,
    distanceFromPrevious: real)

  /** A planned route of one courier; `is_active` defaults to false. */
  datatype OptimizedRoute = OptimizedRoute(
    id: nat,
    courier: nat,
    totalDistance: real,
    totalTime: real,
    totalProfit: real,
    isActive: bool,
    stops: seq<RouteStop>)
}
