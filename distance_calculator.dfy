/** `DistanceCalculator.get_distance` (backend/logistics/services.py) asks a
    routing web service for the driving distance and time between two points
    and falls back to the haversine formula. Both are outside this model: a
    distance lookup is a function parameter `leg` returning a `Leg`. */
module DistanceCalculator {

  /** `(distance_km, time_minutes)`. */
  datatype Leg = Leg(km: real, minutes: real)
}
