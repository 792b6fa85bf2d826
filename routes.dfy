/** Places and the two endpoints of a vehicle's route. */
module Routes {

  /** A place. Only its display form (Java's `toString`) is observable, so a location is that string. */
  datatype Location = Location(display: string)

  /** True when a location's display form holds no line break. */
  predicate SingleLine(l: Location) {
    '\n' !in l.display
  }

  /** The current `source` and `destination` of a vehicle. */
  datatype Endpoints = Endpoints(source: Location, destination: Location)

  /** Reversing direction: the field swap through a temporary in both `move` methods. */
  function Swap(e: Endpoints): (r: Endpoints)
    ensures r.source == e.destination && r.destination == e.source
  {
    Endpoints(e.destination, e.source)
  }

  /** Reversing twice restores the route. */
  lemma SwapInvolution(e: Endpoints)
    ensures Swap(Swap(e)) == e
  {
  }
}
