# Planes, trains and the airport utilities

A model in Dafny of a small Java fleet program. Two kinds of vehicle, `Plane` and `Train`, each
hold a route between two locations. `move()` advances a vehicle one step along its route, and
`compareTo` orders vehicles of the same kind. `AirportUtil` renders a text report of any mix of
vehicles and sorts an array of vehicles of one kind in place.

- `JavaInt` (java_int.dfy): Java's 32-bit `int`. Subtraction and `++` wrap around (two's complement), modulo 2^32.
- `Decimal` (decimal.dfy): the decimal text that string concatenation gives an `int`, with a parser that proves the text determines the number.
- `Routes` (routes.dfy): a location, the pair of route endpoints, and the endpoint swap both `move` methods perform.
- `Planes` (plane.dfy): the class `Plane`. `Move` swaps the endpoints in place.
- `Trains` (train.dfy): the class `Train`, plus its station counter as a value-level state machine. `Step` is one `move` and `Iterate` is `k` of them. The lemmas cover the route invariant, the end of one leg (`n` moves) and the round trip (`2n` moves).
- `Movables` (movable.dfy): the closed sum `Movable = AsPlane | AsTrain`. It stands for the `Movable`/`Comparable` interfaces. A comparison of two kinds is excluded by a precondition.
- `AirportUtil` (airport_util.dfy): `ReportAll` is a loop over the array, proved equal to the line-join specification `Report`. `SortTransport` is an in-place insertion sort that gives an ascending permutation.

How some source behaviour is modelled:
- Java `int` fields have the type `Int32`. `currentStation++` becomes `Wrap(currentStation + 1)`, and `compareTo` is the wrapped difference `Sub`.
- With no stations or a negative count (`numberOfStations <= 0`) the counter starts at or above the count. Because the test follows the increment, counting up meets the count again only after wrapping from `MAX_VALUE` to `MIN_VALUE` (`StepWithoutStations`, one move). Over many moves from station 0, the first `2^32 + numberOfStations - 1` keep the endpoints and leave the counter at the 32-bit move count (`IterateWithoutStations`); the next one reverses the train and resets the counter to 0 (`ResetAfterWrap`).
- When the subtraction overflows, `compareTo` reverses the order: the larger key compares as smaller (`SubOverflowFlips`). At a difference of exactly 2^31 both directions are negative (`SubOverflowLosesSign`). That is the arithmetic as written. The attribute limits (1500, 500) are declared but nothing checks them, so the constructors accept any `int`; the sort therefore requires that no two keys' difference overflows.
- `licenceNumber`, `maximalHeight`, `numberOfStations` and `maximalPassenger` are assigned only in the constructors, so the model declares them `const`. That "`move` never changes them" is therefore enforced by their types. The fields `move` changes, `source`, `destination` and `currentStation`, are `var`.
- `ReportAll` has no `modifies` clause, so Dafny checks that it changes neither the array nor any vehicle.

The constructor does not check `numberOfStations >= 1`, so `Valid()` holds of a new train exactly when `numOfStations >= 1`. `Move` preserves `Valid()` but does not establish it.

## Model

| member | source | states |
|---|---|---|
| JavaInt.Wrap | src/Train.java:115 | the Java `int` result of an exact value: representable, congruent modulo 2^32, and equal to the value when it fits |
| JavaInt.Sub | src/Train.java:133 | Java `int` subtraction: congruent to the exact difference modulo 2^32, equal to it without overflow |
| JavaInt.SubAntisymmetric | src/Plane.java:116 | without overflow, swapping the operands negates the result, and its sign is the sign of `a - b` |
| JavaInt.SubOverflowFlips | src/Plane.java:116 | when the exact difference overflows, the result has the opposite sign of `a - b`: a larger `a` gives a negative result, a smaller one a positive result |
| JavaInt.SubOverflowLosesSign | src/Plane.java:116 | at a difference of exactly 2^31 both `MAX_VALUE - (-1)` and `(-1) - MAX_VALUE` are negative, so the result is no consistent order |
| Decimal.NatToString | src/AirportUtil.java:26 | the decimal text of a natural number is non-empty and all digits, with no leading zero: it starts with `0` only when it is `"0"`, and never for `n >= 10` |
| Decimal.IntToString | src/Train.java:107 | the text of an `int` is a `-` exactly when it is negative, followed by digits |
| Decimal.ParseIntToString | src/AirportUtil.java:26 | parsing the decimal text of any integer gives the integer back (the text is injective) |
| Decimal.IntToStringSingleLine | src/AirportUtil.java:26 | the text of a number holds no line break |
| Routes.Swap | src/Plane.java:101-105 | the new source is the old destination and the new destination the old source |
| Planes.Plane.constructor | src/Plane.java:29-34 | fields are the arguments; `GetType` is "Plane", `GetId` the given id, the endpoints the given ones, the current location the source |
| Planes.Plane.GetType | src/Plane.java:53-55 | a plane's type name is always "Plane" |
| Planes.Plane.GetId | src/Plane.java:63-65 | the id is the licence number, which no operation changes |
| Planes.Plane.GetSource | src/Plane.java:73-75 | the source is the first endpoint of the current route |
| Planes.Plane.GetDestination | src/Plane.java:83-85 | the destination is the second endpoint of the current route |
| Planes.Plane.GetCurrentLocation | src/Plane.java:93-95 | a plane's location is always the display string of its current source |
| Planes.Plane.Move | src/Plane.java:101-105 | the endpoints are swapped and the plane is now at its old destination; identity and height are constants |
| Planes.MoveTwice | src/Plane.java:101-105 | two moves restore the original source and destination |
| Planes.Plane.CompareTo | src/Plane.java:115-117 | the wrapped difference of maximal heights, equal to the exact difference without overflow |
| Planes.CompareToSelf | src/Plane.java:115-117 | a plane compared with itself gives 0 |
| Planes.CompareToAntisymmetric | src/Plane.java:115-117 | without overflow, swapping the planes negates the result and its sign orders by height |
| Trains.Step | src/Train.java:114-122 | one move keeps or swaps the endpoints, leaves the counter at 0 or at the old counter plus one modulo 2^32, and leaves it equal to the count only when the count is 0 |
| Trains.Iterate | src/Train.java:114-122 | any number of moves leaves the endpoints as they were or swapped |
| Trains.IterateOnRoute | src/Train.java:114-122 | from a state with `0 <= currentStation < numberOfStations`, any number of moves keeps it there |
| Trains.StepOnRoute | src/Train.java:114-122 | one move keeps the counter in `[0, numberOfStations)` |
| Trains.StepAdvances | src/Train.java:115-116 | when `currentStation + 1 < numberOfStations`, a move increments the counter and keeps both endpoints |
| Trains.StepTurnsAround | src/Train.java:116-121 | when `currentStation + 1 == numberOfStations`, a move swaps the endpoints and resets the counter to 0 |
| Trains.StepWithoutStations | src/Train.java:114-122 | with a count of at most 0, a move increments the counter and keeps the endpoints unless it is `MAX_VALUE` (then it wraps to `MIN_VALUE`) or the incremented counter equals the count (then the endpoints swap and the counter is 0) |
| Trains.IterateWithoutStations | src/Train.java:114-122 | with a count of at most 0, each of the first `2^32 + count - 1` moves from station 0 keeps the endpoints, and the counter is the move count wrapped to 32 bits |
| Trains.StepCount | src/Train.java:115-116 | with a count of at most 0 and before the reversal, move `k` takes the counter from the 32-bit value of `k - 1` to that of `k` |
| Trains.ResetAfterWrap | src/Train.java:114-122 | with a count of at most 0, move `2^32 + count` from station 0 is the first to reverse the train, which lands at station 0 of the swapped leg |
| Trains.Progress | src/Train.java:114-122 | the station reached after `k` moves from station 0 is always below the station count |
| Trains.ProgressIsDivMod | src/Train.java:114-122 | after `k` moves from station 0 the train has completed `k / n` legs and stands at station `k % n` |
| Trains.IterateFromStart | src/Train.java:114-122 | after `k` moves from station 0 the endpoints are swapped once per completed leg and the counter is the station reached |
| Trains.OneLeg | src/Train.java:114-122 | during the first `n - 1` moves from station 0 the endpoints never change and the counter is the move count; the `n`th move swaps them and returns the counter to 0 |
| Trains.RoundTrip | src/Train.java:114-122 | `2n` moves from station 0 restore the original endpoints and station 0 |
| Trains.StepFromPosition | src/Train.java:114-122 | one move from the leg of a reached position gives the leg of the next position: the next station, or station 0 of the next, reversed, leg |
| Trains.Cycle | src/Train.java:114-122 | after `k` moves from station 0 the train is at station `k % n`, reversed exactly when `k / n` is odd |
| Trains.Train.constructor | src/Train.java:39-46 | the train starts at station 0 with the given id, endpoints, station count and capacity; it satisfies the route invariant exactly when the station count is at least 1 |
| Trains.Train.Valid | src/Train.java:114-122 | a train on its route has at least one station, and incrementing its counter does not overflow |
| Trains.Train.GetType | src/Train.java:65-67 | a train's type name is always "Train" |
| Trains.Train.GetId | src/Train.java:75-77 | the id is the licence number, which no operation changes |
| Trains.Train.GetSource | src/Train.java:85-87 | the source is the first endpoint of the current leg |
| Trains.Train.GetDestination | src/Train.java:95-97 | the destination is the second endpoint of the current leg |
| Trains.Train.GetCurrentLocation | src/Train.java:105-108 | the text is the source's display exactly when the counter is 0; otherwise it is `station <k> between <src> and <dst>.` |
| Trains.Train.Move | src/Train.java:114-122 | the new endpoints and counter are one `Step` of the old ones; the route invariant is preserved; identity, station count and capacity are constants |
| Trains.Train.CompareTo | src/Train.java:132-134 | the wrapped difference of passenger capacities, equal to the exact difference without overflow |
| Trains.CompareToSelf | src/Train.java:132-134 | a train compared with itself gives 0 |
| Trains.CompareToAntisymmetric | src/Train.java:132-134 | without overflow, swapping the trains negates the result and its sign orders by capacity |
| Movables.Movable.Type | src/AirportUtil.java:26 | `m.getType()` through the interface is "Plane" for a plane and "Train" for a train |
| Movables.Movable.Id | src/AirportUtil.java:26 | `m.getId()` through the interface is the vehicle's own licence number |
| Movables.Movable.Source | src/AirportUtil.java:26 | `m.getSource()` through the interface is the vehicle's current source field |
| Movables.Movable.Destination | src/AirportUtil.java:26 | `m.getDestination()` through the interface is the vehicle's current destination field |
| Movables.Movable.CurrentLocation | src/AirportUtil.java:27 | `m.getCurrentLocation()` through the interface: a plane is at its source; a train is at its source exactly when its counter is 0 |
| Movables.Movable.Key | src/Plane.java:116 | the attribute `compareTo` subtracts: maximal height for a plane, and `maximalPassenger` for a train (src/Train.java:133) |
| Movables.CompareTo | src/AirportUtil.java:14 | `compareTo` through the interface is defined only for two vehicles of one kind (the cast in src/Train.java:133 and src/Plane.java:116) and is the wrapped key difference |
| Movables.CompareToOrdersByKey | src/AirportUtil.java:14 | without overflow, `compareTo <= 0` exactly when the key is not larger, `== 0` exactly when the keys are equal, and swapping negates it |
| AirportUtil.Line | src/AirportUtil.java:26-27 | the report line `<type> <id> going from <src> to <dst>. Currently in <location>`, with the getters resolved to the plane's or the train's own fields |
| AirportUtil.LineFormat | src/AirportUtil.java:26-27 | a vehicle's report line starts with its type name and a space and ends with its current location |
| AirportUtil.Lines | src/AirportUtil.java:25-28 | one line per vehicle, in input order, line `k` being vehicle `k`'s |
| AirportUtil.Join | src/AirportUtil.java:29 | joining no lines gives the empty string |
| AirportUtil.SplitJoin | src/AirportUtil.java:29 | lines without line breaks joined by `"\n"` split back into exactly those lines: no extra or trailing line |
| AirportUtil.LineSingleLine | src/AirportUtil.java:26-27 | a vehicle whose endpoints display on one line has a one-line report line |
| AirportUtil.Report | src/AirportUtil.java:24-29 | the report of no vehicles is the empty string |
| AirportUtil.ReportOneLinePerVehicle | src/AirportUtil.java:24-29 | for vehicles of any kinds, the report splits into exactly one line per vehicle, in order, line `k` being `<type> <id> going from <src> to <dst>. Currently in <location>` of vehicle `k` |
| AirportUtil.ReportOnePlane | src/AirportUtil.java:26-29 | the report of plane 7 from A to B is exactly `Plane 7 going from A to B. Currently in A` |
| AirportUtil.ReportAll | src/AirportUtil.java:23-30 | the buffer loop returns `Report` of the array, and the method modifies nothing |
| AirportUtil.SortTransport | src/AirportUtil.java:13-15 | for a one-kind array whose keys' differences fit in an `int`, the array becomes a permutation of its input, ascending by key and by `compareTo` |
| AirportUtil.Insert | src/AirportUtil.java:14 | one insertion step: the prefix grows sorted by one element, kinds are kept, and the contents are permuted only |
| AirportUtil.PermutationKeepsComparable | src/AirportUtil.java:14 | a key-sorted permutation of a comparable array is ascending under `compareTo` |

## Left out

- `toString` of both classes (src/Train.java:53-57, src/Plane.java:41-45): `String.format` debug text. No other code of the core uses it.
- Location.java is not part of this model. A location is reduced to its display string (`Location(display)`), so two locations with the same display are equal here.
- Movable.java and Java's `Comparable` are not part of this model. Their role is played by the closed datatype `Movable`.
- `HEIGHT_LIMIT`, `PASSENGER_LIMIT` and `STATION_LIMIT` are declared as constants, and, as in the source, nothing checks them.
- Null references (a null location or array element, and the `NullPointerException` it would cause) are not modelled: Dafny references here are non-null.
- `ClassCastException`: a comparison between kinds cannot be expressed, because `Plane.CompareTo` and `Train.CompareTo` take their own class. `Movables.CompareTo` and `SortTransport` require one kind.
- AirportUtil.SortTransport: the internals of `Arrays.sort` (TimSort) are replaced by an insertion sort with the same postcondition, a sorted permutation. Stability is not stated, though `Arrays.sort` on objects guarantees it.
- AirportUtil.SortTransport: requires that no two keys' difference overflows an `int`. Otherwise `compareTo` is not a consistent comparator and `Arrays.sort` may reorder arbitrarily or throw; this run-time failure is not modelled.
- AirportUtil.ReportOneLinePerVehicle: assumes that no location's display text contains a line break. A display that does contain one would split a report line in two.
- `move` as called repeatedly by an outside driver is modelled at the value level (`Iterate` of `Step`), not as a loop over the object. `Train.Move` is tied to `Step` by its postcondition.
- Java's `String` is modelled as a sequence of characters, and `String.join` and `Integer.toString` by their own definitions (`Join`, `IntToString`) rather than the library code.
