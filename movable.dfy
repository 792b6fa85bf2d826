/** The capabilities shared by planes and trains, over the closed set of the two kinds. */
module Movables {
  import opened JavaInt
  import opened Routes
  import opened Planes
  import opened Trains

  datatype Kind = PlaneKind | TrainKind

  /** A reference to a vehicle of either kind, as held in a `Movable[]` or `Comparable[]` array. */
  datatype Movable = AsPlane(plane: Plane) | AsTrain(train: Train) {

    function Kind(): Kind {
      if AsPlane? then PlaneKind else TrainKind
    }

    /** The object whose fields this vehicle's capabilities read. */
    function Ref(): object {
      if AsPlane? then plane else train
    }

    /** `getType()` through the interface: the name of the vehicle's own class. */
    function Type(): (r: string)
      ensures AsPlane? ==> r == "Plane"
      ensures AsTrain? ==> r == "Train"
    {
      if AsPlane? then plane.GetType() else train.GetType()
    }

    /** `getId()` through the interface: the vehicle's licence number. */
    function Id(): (r: Int32)
      ensures r == if AsPlane? then plane.licenceNumber else train.licenceNumber
    {
      if AsPlane? then plane.GetId() else train.GetId()
    }

    /** `getSource()` through the interface: the vehicle's current source field. */
    function Source(): (r: Location)
      reads Ref()
      ensures r == if AsPlane? then plane.source else train.source
    {
      if AsPlane? then plane.GetSource() else train.GetSource()
    }

    /** `getDestination()` through the interface: the vehicle's current destination field. */
    function Destination(): (r: Location)
      reads Ref()
      ensures r == if AsPlane? then plane.destination else train.destination
    {
      if AsPlane? then plane.GetDestination() else train.GetDestination()
    }

    /** `getCurrentLocation()` through the interface: a plane is at its source; a train is at its source
        exactly when its counter is 0. */
    function CurrentLocation(): (r: string)
      reads Ref()
      ensures AsPlane? ==> r == Source().display
      ensures AsTrain? ==> (r == Source().display <==> train.currentStation == 0)
    {
      if AsPlane? then plane.GetCurrentLocation() else train.GetCurrentLocation()
    }

    /** The attribute a kind is ordered by: maximal height for a plane, passenger capacity for a train. */
    function Key(): (r: Int32)
      ensures AsPlane? ==> r == plane.maximalHeight
      ensures AsTrain? ==> r == train.maximalPassenger
    {
      if AsPlane? then plane.maximalHeight else train.maximalPassenger
    }
  }

  /** `compareTo` through the `Comparable` interface. Java casts the argument to the receiver's class
      and throws `ClassCastException` on a vehicle of the other kind; here that call is excluded. */
  function CompareTo(v: Movable, w: Movable): (r: Int32)
    requires v.Kind() == w.Kind()
    ensures (r - (v.Key() - w.Key())) % Modulus == 0
    ensures Fits(v.Key() - w.Key()) ==> r == v.Key() - w.Key()
  {
    if v.AsPlane? then v.plane.CompareTo(w.plane) else v.train.CompareTo(w.train)
  }

  /** Absent overflow, `compareTo` is a consistent order: it agrees in sign with the keys and is antisymmetric. */
  lemma CompareToOrdersByKey(v: Movable, w: Movable)
    requires v.Kind() == w.Kind()
    requires Fits(v.Key() - w.Key()) && Fits(w.Key() - v.Key())
    ensures CompareTo(v, w) <= 0 <==> v.Key() <= w.Key()
    ensures CompareTo(v, w) == 0 <==> v.Key() == w.Key()
    ensures CompareTo(w, v) == -CompareTo(v, w)
  {
  }

  /** Every vehicle of the sequence is of one kind. */
  predicate Homogeneous(s: seq<Movable>) {
    forall i, j :: 0 <= i < |s| && 0 <= j < |s| ==> s[i].Kind() == s[j].Kind()
  }

  /** The objects a sequence of vehicles refers to. */
  function Refs(s: seq<Movable>): set<object> {
    set v | v in s :: v.Ref()
  }
}
