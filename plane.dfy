/** A plane: a vehicle that is always at one endpoint of its route and flips between the two. */
module Planes {
  import opened JavaInt
  import opened Routes

  /** Declared by the source and never enforced. */
  const HeightLimit: Int32 := 1500

  /** The licence number and maximal height are assigned only by the constructor, so they are constants;
      `move` changes the endpoints alone. */
  class Plane {
    const licenceNumber: Int32
    var source: Location
    var destination: Location
    const maximalHeight: Int32

    constructor (id: Int32, src: Location, dst: Location, maxHeight: Int32)
      ensures licenceNumber == id && maximalHeight == maxHeight
      ensures source == src && destination == dst
      ensures GetType() == "Plane" && GetId() == id
      ensures GetSource() == src && GetDestination() == dst
      ensures GetCurrentLocation() == src.display
    {
      licenceNumber := id;
      source := src;
      destination := dst;
      maximalHeight := maxHeight;
    }

    /** The kind name the report prints. */
    function GetType(): (r: string)
      ensures r == "Plane"
    {
      "Plane"
    }

    /** The licence number, fixed at construction. */
    function GetId(): (r: Int32)
      ensures r == licenceNumber
    {
      licenceNumber
    }

    /** The endpoint the plane is at. */
    function GetSource(): (r: Location)
      reads this
      ensures r == Ends().source
    {
      source
    }

    /** The endpoint the plane flies to next. */
    function GetDestination(): (r: Location)
      reads this
      ensures r == Ends().destination
    {
      destination
    }

    /** The route as a value. */
    function Ends(): Endpoints
      reads this
    {
      Endpoints(source, destination)
    }

    /** A plane has no intermediate position: it is wherever its current source is. */
    function GetCurrentLocation(): (r: string)
      reads this
      ensures r == GetSource().display
    {
      source.display
    }

    /** Flies to the other endpoint: the endpoints swap and nothing else changes. */
    method Move()
      modifies this
      ensures Ends() == Swap(old(Ends()))
      ensures GetCurrentLocation() == old(destination).display
    {
      var tmp := source;
      source := destination;
      destination := tmp;
    }

    /** Java's `maximalHeight - other.maximalHeight`, with 32-bit wrap-around.
        The parameter's type is the cast to `Plane`: another kind cannot be passed. */
    function CompareTo(other: Plane): (r: Int32)
      ensures (r - (maximalHeight - other.maximalHeight)) % Modulus == 0
      ensures Fits(maximalHeight - other.maximalHeight) ==> r == maximalHeight - other.maximalHeight
    {
      Sub(maximalHeight, other.maximalHeight)
    }
  }

  /** Two moves bring a plane back to where it started. */
  method MoveTwice(p: Plane)
    modifies p
    ensures p.Ends() == old(p.Ends())
  {
    ghost var start := p.Ends();
    p.Move();
    p.Move();
    SwapInvolution(start);
  }

  /** A plane compared with itself is neither before nor after itself. */
  lemma CompareToSelf(p: Plane)
    ensures p.CompareTo(p) == 0
  {
    SubSelf(p.maximalHeight);
  }

  /** Absent overflow the comparison is antisymmetric and its sign orders by maximal height. */
  lemma CompareToAntisymmetric(p: Plane, q: Plane)
    requires Fits(p.maximalHeight - q.maximalHeight) && Fits(q.maximalHeight - p.maximalHeight)
    ensures q.CompareTo(p) == -p.CompareTo(q)
    ensures p.CompareTo(q) <= 0 <==> p.maximalHeight <= q.maximalHeight
  {
  }
}
