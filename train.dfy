/** A train: a cyclic counter over the stations of its current leg, reversing at the end of each leg. */
module Trains {
  import opened JavaInt
  import opened Decimal
  import opened Routes

  /** Declared by the source and never enforced. */
  const PassengerLimit: Int32 := 500
  const StationLimit: Int32 := 5

  /** The part of a train that `move` changes: its endpoints and its station counter. */
  datatype Leg = Leg(ends: Endpoints, station: Int32)

  /** The counter is a station of the current leg. */
  predicate OnRoute(g: Leg, stations: int) {
    0 <= g.station < stations
  }

  /** One `move`: `currentStation++` in 32-bit arithmetic; on reaching `stations` the endpoints swap and the counter is 0. */
  function Step(g: Leg, stations: Int32): (r: Leg)
    ensures r.ends == g.ends || r.ends == Swap(g.ends)
    ensures r.station == 0 || (r.station - (g.station + 1)) % Modulus == 0
    ensures r.station == stations ==> stations == 0
  {
    var next := Wrap(g.station + 1);
    if next == stations then Leg(Swap(g.ends), 0) else Leg(g.ends, next)
  }

  /** `k` consecutive moves. */
  function Iterate(g: Leg, stations: Int32, k: nat): (r: Leg)
    ensures r.ends == g.ends || r.ends == Swap(g.ends)
    decreases k
  {
    if k == 0 then g else Step(Iterate(g, stations, k - 1), stations)
  }

  /** A move keeps the counter on the route. */
  lemma StepOnRoute(g: Leg, stations: Int32)
    requires OnRoute(g, stations)
    ensures OnRoute(Step(g, stations), stations)
  {
  }

  /** The counter stays on the route for any number of moves. */
  lemma {:induction false} IterateOnRoute(g: Leg, stations: Int32, k: nat)
    requires OnRoute(g, stations)
    ensures OnRoute(Iterate(g, stations, k), stations)
    decreases k
  {
    if k > 0 {
      IterateOnRoute(g, stations, k - 1);
      StepOnRoute(Iterate(g, stations, k - 1), stations);
    }
  }

  /** Before the last station, a move advances the counter by one and keeps the endpoints. */
  lemma StepAdvances(g: Leg, stations: Int32)
    requires g.station + 1 < stations
    ensures Step(g, stations) == Leg(g.ends, g.station + 1)
  {
  }

  /** From the last station, a move swaps the endpoints and resets the counter. */
  lemma StepTurnsAround(g: Leg, stations: Int32)
    requires g.station + 1 == stations
    ensures Step(g, stations) == Leg(Swap(g.ends), 0)
  {
  }

  /** One move with no stations, or a negative count. The counter starts at or above the count, and the
      test follows the increment, so counting up meets the count again only after wrapping from
      `MAX_VALUE` to `MIN_VALUE`; only then does a move reverse the train and reset the counter. */
  lemma StepWithoutStations(g: Leg, stations: Int32)
    requires stations <= 0
    ensures g.station != MaxInt && g.station + 1 != stations ==> Step(g, stations) == Leg(g.ends, g.station + 1)
    ensures g.station == MaxInt && stations != MinInt ==> Step(g, stations) == Leg(g.ends, MinInt)
    ensures Wrap(g.station + 1) == stations ==> Step(g, stations) == Leg(Swap(g.ends), 0)
  {
    if g.station == MaxInt {
      assert Wrap(MaxInt + 1) == MinInt by {
        assert (MinInt - (MaxInt + 1)) % Modulus == 0;
      }
    }
  }

  /** The 32-bit value of a move count up to 2^32. */
  lemma WrapCount(k: int)
    requires 0 <= k <= Modulus
    ensures k <= MaxInt ==> Wrap(k) == k
    ensures MaxInt < k ==> Wrap(k) == k - Modulus
  {
    if MaxInt < k {
      assert (k - MinInt) % Modulus == k - MinInt - Modulus;
    }
  }

  /** With no stations, or a negative count, the first 2^32 + `stations` - 1 moves from station 0 keep the
      endpoints and leave the counter at the move count in 32-bit arithmetic. */
  lemma {:induction false} IterateWithoutStations(e: Endpoints, stations: Int32, k: nat)
    requires stations <= 0 && k < Modulus + stations
    ensures Iterate(Leg(e, 0), stations, k) == Leg(e, Wrap(k))
    decreases k
  {
    if k > 0 {
      IterateWithoutStations(e, stations, k - 1);
      StepCount(e, stations, k);
    }
  }

  /** Move `k` of a train that has not yet reversed: from counter `k - 1` to counter `k`, both in 32 bits. */
  lemma StepCount(e: Endpoints, stations: Int32, k: nat)
    requires stations <= 0 && 0 < k < Modulus + stations
    ensures Step(Leg(e, Wrap(k - 1)), stations) == Leg(e, Wrap(k))
  {
    WrapCount(k - 1);
    WrapCount(k);
    StepWithoutStations(Leg(e, Wrap(k - 1)), stations);
  }

  /** With no stations, or a negative count, the train first reverses on move 2^32 + `stations`
      from station 0, landing at station 0 of the reversed leg. */
  lemma ResetAfterWrap(e: Endpoints, stations: Int32)
    requires stations <= 0
    ensures Iterate(Leg(e, 0), stations, Modulus + stations) == Leg(Swap(e), 0)
  {
    var k := Modulus + stations - 1;
    IterateWithoutStations(e, stations, k);
    LastCount(stations);
    StepWithoutStations(Leg(e, Wrap(k)), stations);
  }

  /** The counter before the reversing move is one below the count, in 32 bits. */
  lemma LastCount(stations: Int32)
    requires stations <= 0
    ensures Wrap(Wrap(Modulus + stations - 1) + 1) == stations
  {
    WrapCount(Modulus + stations - 1);
    WrapCount(MaxInt + 1);
  }

  /** Which endpoints a train starting at `e` has after `laps` completed legs. */
  function EndsAfter(e: Endpoints, laps: nat): Endpoints {
    if laps % 2 == 0 then e else Swap(e)
  }

  /** How far `k` moves take a train that starts at station 0 of a leg of `n` stations:
      the number of legs completed and the station reached on the current one. */
  datatype Position = Position(legs: nat, station: nat)

  function Progress(k: nat, n: nat): (p: Position)
    requires n >= 1
    ensures p.station < n
    decreases k
  {
    if k == 0 then Position(0, 0)
    else
      var p := Progress(k - 1, n);
      if p.station + 1 < n then Position(p.legs, p.station + 1) else Position(p.legs + 1, 0)
  }

  /** The progress after `k` moves is the quotient and remainder of `k` by the number of stations. */
  lemma {:induction false} ProgressIsDivMod(k: nat, n: nat)
    requires n >= 1
    ensures Progress(k, n) == Position(k / n, k % n)
    decreases k
  {
    if k > 0 {
      ProgressIsDivMod(k - 1, n);
      DivModNext(k - 1, n);
    }
  }

  /** Starting at station 0, the train's leg after `k` moves is given by its progress:
      the endpoints are swapped once per completed leg. */
  lemma {:induction false} IterateFromStart(e: Endpoints, stations: Int32, k: nat)
    requires stations >= 1
    ensures var p := Progress(k, stations);
      Iterate(Leg(e, 0), stations, k) == Leg(EndsAfter(e, p.legs), p.station)
    decreases k
  {
    if k > 0 {
      IterateFromStart(e, stations, k - 1);
      StepFromPosition(e, stations, Progress(k - 1, stations));
    }
  }

  /** One move from the leg of a position gives the leg of the next position. */
  lemma StepFromPosition(e: Endpoints, stations: Int32, p: Position)
    requires stations >= 1 && p.station < stations
    ensures var next := if p.station + 1 < stations then Position(p.legs, p.station + 1) else Position(p.legs + 1, 0);
      Step(Leg(EndsAfter(e, p.legs), p.station), stations) == Leg(EndsAfter(e, next.legs), next.station)
  {
    var g := Leg(EndsAfter(e, p.legs), p.station);
    if p.station + 1 < stations {
      StepAdvances(g, stations);
    } else {
      StepTurnsAround(g, stations);
    }
  }

  /** How `x / n` and `x % n` change when `x` grows by one. */
  lemma DivModNext(x: nat, n: int)
    requires n >= 1
    ensures x % n + 1 < n ==> (x + 1) / n == x / n && (x + 1) % n == x % n + 1
    ensures x % n + 1 == n ==> (x + 1) / n == x / n + 1 && (x + 1) % n == 0
  {
    var q, r := x / n, x % n;
    assert x == q * n + r;
    if r + 1 < n {
      DivModUnique(x + 1, n, q, r + 1);
    } else {
      assert x + 1 == (q + 1) * n;
      DivModUnique(x + 1, n, q + 1, 0);
    }
  }

  lemma DivModUnique(x: int, n: int, q: int, r: int)
    requires n >= 1 && 0 <= r < n && x == q * n + r
    ensures x / n == q && x % n == r
  {
    var q', r' := x / n, x % n;
    assert x == q' * n + r';
    assert (q - q') * n == r' - r;
    MulAtLeast(q - q', n);
  }

  /** A nonzero multiple of a positive `n` is at least `n` away from 0. */
  lemma MulAtLeast(a: int, n: int)
    requires n >= 1
    ensures a >= 1 ==> a * n >= n
    ensures a <= -1 ==> a * n <= -n
  {
  }

  /** One full leg of `n` moves returns the counter to 0 and swaps the endpoints exactly once:
      during the leg the endpoints stay as they were. */
  lemma OneLeg(e: Endpoints, stations: Int32)
    requires stations >= 1
    ensures forall k: nat :: k < stations ==> Iterate(Leg(e, 0), stations, k) == Leg(e, k)
    ensures Iterate(Leg(e, 0), stations, stations) == Leg(Swap(e), 0)
  {
    forall k: nat | k < stations
      ensures Iterate(Leg(e, 0), stations, k) == Leg(e, k)
    {
      IterateFromStart(e, stations, k);
      ProgressIsDivMod(k, stations);
      DivModUnique(k, stations, 0, k);
    }
    IterateFromStart(e, stations, stations);
    ProgressIsDivMod(stations, stations);
    DivModUnique(stations, stations, 1, 0);
  }

  /** A round trip of `2n` moves restores the original endpoints with the counter at 0. */
  lemma RoundTrip(e: Endpoints, stations: Int32)
    requires stations >= 1
    ensures Iterate(Leg(e, 0), stations, 2 * stations) == Leg(e, 0)
  {
    IterateFromStart(e, stations, 2 * stations);
    ProgressIsDivMod(2 * stations, stations);
    DivModUnique(2 * stations, stations, 2, 0);
  }

  /** In general, after `k` moves from station 0 the train is at station `k % n`,
      with its endpoints swapped when it has completed an odd number `k / n` of legs. */
  lemma Cycle(e: Endpoints, stations: Int32, k: nat)
    requires stations >= 1
    ensures Iterate(Leg(e, 0), stations, k) == Leg(EndsAfter(e, k / stations), k % stations)
  {
    IterateFromStart(e, stations, k);
    ProgressIsDivMod(k, stations);
  }

  /** The licence number, station count and passenger capacity are assigned only by the constructor,
      so they are constants; `move` changes the endpoints and the counter alone. */
  class Train {
    const licenceNumber: Int32
    var source: Location
    var destination: Location
    const numberOfStations: Int32
    var currentStation: Int32
    const maximalPassenger: Int32

    /** The state that `move` changes, as a value. */
    function CurrentLeg(): Leg
      reads this
    {
      Leg(Endpoints(source, destination), currentStation)
    }

    /** The train is at one of the stations of its current leg. Such a train has a station,
        and `currentStation++` on it cannot overflow. */
    predicate Valid()
      reads this
      ensures Valid() ==> numberOfStations >= 1 && Wrap(currentStation + 1) == currentStation + 1
    {
      OnRoute(CurrentLeg(), numberOfStations)
    }

    /** A new train is at station 0 of the given leg; it is on its route exactly when it has a station. */
    constructor (id: Int32, src: Location, dst: Location, numOfStations: Int32, maxPassengers: Int32)
      ensures licenceNumber == id && numberOfStations == numOfStations && maximalPassenger == maxPassengers
      ensures source == src && destination == dst && currentStation == 0
      ensures GetType() == "Train" && GetId() == id
      ensures GetSource() == src && GetDestination() == dst
      ensures GetCurrentLocation() == src.display
      ensures Valid() <==> numOfStations >= 1
    {
      licenceNumber := id;
      source := src;
      destination := dst;
      numberOfStations := numOfStations;
      currentStation := 0;
      maximalPassenger := maxPassengers;
    }

    /** The kind name the report prints. */
    function GetType(): (r: string)
      ensures r == "Train"
    {
      "Train"
    }

    /** The licence number, fixed at construction. */
    function GetId(): (r: Int32)
      ensures r == licenceNumber
    {
      licenceNumber
    }

    /** The endpoint the current leg started from. */
    function GetSource(): (r: Location)
      reads this
      ensures r == CurrentLeg().ends.source
    {
      source
    }

    /** The endpoint the current leg runs to. */
    function GetDestination(): (r: Location)
      reads this
      ensures r == CurrentLeg().ends.destination
    {
      destination
    }

    /** At station 0 the train is at its source; elsewhere it reports the station between the endpoints.
        The two forms never coincide, so the text says "at source" exactly when the counter is 0. */
    function GetCurrentLocation(): (r: string)
      reads this
      ensures r == source.display <==> currentStation == 0
      ensures currentStation != 0 ==>
        r == "station " + IntToString(currentStation) + " between " + source.display + " and " + destination.display + "."
    {
      if currentStation == 0 then source.display
      else "station " + IntToString(currentStation) + " between " + source.display + " and " + destination.display + "."
    }

    /** Advances one station, reversing at the end of the leg; the identity, station count and capacity never change. */
    method Move()
      modifies this
      ensures CurrentLeg() == Step(old(CurrentLeg()), numberOfStations)
      ensures old(Valid()) ==> Valid()
    {
      currentStation := Wrap(currentStation + 1);
      if currentStation == numberOfStations {
        var tmp := source;
        source := destination;
        destination := tmp;
        currentStation := 0;
      }
    }

    /** Java's `maximalPassenger - other.maximalPassenger`, with 32-bit wrap-around.
        The parameter's type is the cast to `Train`: another kind cannot be passed. */
    function CompareTo(other: Train): (r: Int32)
      ensures (r - (maximalPassenger - other.maximalPassenger)) % Modulus == 0
      ensures Fits(maximalPassenger - other.maximalPassenger) ==> r == maximalPassenger - other.maximalPassenger
    {
      Sub(maximalPassenger, other.maximalPassenger)
    }
  }

  /** A train compared with itself is neither before nor after itself. */
  lemma CompareToSelf(t: Train)
    ensures t.CompareTo(t) == 0
  {
    SubSelf(t.maximalPassenger);
  }

  /** Absent overflow the comparison is antisymmetric and its sign orders by capacity. */
  lemma CompareToAntisymmetric(t: Train, u: Train)
    requires Fits(t.maximalPassenger - u.maximalPassenger) && Fits(u.maximalPassenger - t.maximalPassenger)
    ensures u.CompareTo(t) == -t.CompareTo(u)
    ensures t.CompareTo(u) <= 0 <==> t.maximalPassenger <= u.maximalPassenger
  {
  }
}
