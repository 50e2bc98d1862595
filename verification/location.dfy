/** A geographic position: a latitude/longitude pair in degrees. */
module Locations {

  datatype Location = Location(latitude: real, longitude: real)

  /** The range the codec is designed for; nothing in the code enforces it. */
  predicate InRange(loc: Location) {
    -90.0 <= loc.latitude <= 90.0 && -180.0 <= loc.longitude <= 180.0
  }
}
