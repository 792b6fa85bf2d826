/** Fleet utilities: a text report over vehicles of any kind, and an in-place sort of vehicles of one kind. */
module AirportUtil {
  import opened JavaInt
  import opened Decimal
  import opened Routes
  import opened Planes
  import opened Movables

  /** The report line of one vehicle: its type, id, endpoints and current location inside fixed text. */
  function Line(v: Movable): (r: string)
    reads v.Ref()
    ensures v.AsPlane? ==> r == Format("Plane", v.plane.licenceNumber, v.plane.source, v.plane.destination, v.plane.source.display)
    ensures v.AsTrain? ==> r == Format("Train", v.train.licenceNumber, v.train.source, v.train.destination,
      v.train.GetCurrentLocation())
  {
    Format(v.Type(), v.Id(), v.Source(), v.Destination(), v.CurrentLocation())
  }

  /** The text of one report line, from the values the interface getters return. */
  function Format(kind: string, id: Int32, src: Location, dst: Location, at: string): string {
    kind + " " + IntToString(id) + " going from " + src.display + " to " + dst.display + ". Currently in " + at
  }

  /** A report line opens with the vehicle's type and a space, and closes with its current location. */
  lemma LineFormat(v: Movable)
    ensures var r := Line(v);
      |r| > |v.Type()| && r[..|v.Type()|] == v.Type() && r[|v.Type()|] == ' '
      && |r| >= |v.CurrentLocation()| && r[|r| - |v.CurrentLocation()|..] == v.CurrentLocation()
  {
  }

  /** The report lines of a sequence of vehicles: one per vehicle, in order. */
  function Lines(s: seq<Movable>): (r: seq<string>)
    reads Refs(s)
    ensures |r| == |s|
    ensures forall k :: 0 <= k < |s| ==> r[k] == Line(s[k])
  {
    if s == [] then []
    else
      var init := s[..|s| - 1];
      RefsPrefix(s, |s| - 1);
      assert forall k :: 0 <= k < |init| ==> init[k] == s[k];
      Lines(init) + [Line(s[|s| - 1])]
  }

  /** A prefix of a sequence of vehicles refers to no object the whole sequence does not. */
  lemma RefsPrefix(s: seq<Movable>, n: nat)
    requires n <= |s|
    ensures Refs(s[..n]) <= Refs(s)
  {
    forall o | o in Refs(s[..n])
      ensures o in Refs(s)
    {
      var v :| v in s[..n] && v.Ref() == o;
      assert v in s;
    }
  }

  /** Java's `String.join("\n", lines)`: the lines with one line break between consecutive ones. */
  function Join(lines: seq<string>): (r: string)
    ensures lines == [] ==> r == ""
    decreases |lines|
  {
    if |lines| == 0 then ""
    else if |lines| == 1 then lines[0]
    else lines[0] + "\n" + Join(lines[1..])
  }

  /** Cuts a text at its line breaks: the pieces between them, including the empty ones. */
  function Split(s: string): (r: seq<string>)
    ensures |r| >= 1
    decreases |s|
  {
    if |s| == 0 then [""]
    else
      var rest := Split(s[1..]);
      if s[0] == '\n' then [""] + rest else [[s[0]] + rest[0]] + rest[1..]
  }

  lemma {:induction false} SplitSingle(a: string)
    requires '\n' !in a
    ensures Split(a) == [a]
    decreases |a|
  {
    if |a| > 0 {
      SplitSingle(a[1..]);
      assert [a[0]] + a[1..] == a;
    }
  }

  lemma {:induction false} SplitAfterLine(a: string, b: string)
    requires '\n' !in a
    ensures Split(a + "\n" + b) == [a] + Split(b)
    decreases |a|
  {
    var s := a + "\n" + b;
    if |a| == 0 {
      assert s[1..] == b;
    } else {
      assert s[1..] == a[1..] + "\n" + b;
      SplitAfterLine(a[1..], b);
      assert [a[0]] + a[1..] == a;
    }
  }

  /** Joining lines that hold no line break and splitting the result gives the lines back:
      the joined text has exactly one line per element, in order, and no trailing line break. */
  lemma {:induction false} SplitJoin(lines: seq<string>)
    requires |lines| >= 1
    requires forall k :: 0 <= k < |lines| ==> '\n' !in lines[k]
    ensures Split(Join(lines)) == lines
    decreases |lines|
  {
    if |lines| == 1 {
      SplitSingle(lines[0]);
    } else {
      SplitJoin(lines[1..]);
      SplitAfterLine(lines[0], Join(lines[1..]));
      assert [lines[0]] + lines[1..] == lines;
    }
  }

  /** A vehicle whose endpoints display on one line has a report line without a line break. */
  lemma LineSingleLine(v: Movable)
    requires SingleLine(v.Source()) && SingleLine(v.Destination())
    ensures '\n' !in Line(v)
  {
    if v.AsTrain? {
      IntToStringSingleLine(v.train.currentStation);
    }
    assert '\n' !in v.CurrentLocation();
    FormatSingleLine(v.Type(), v.Id(), v.Source(), v.Destination(), v.CurrentLocation());
  }

  /** Line-free parts give a line-free report line. */
  lemma FormatSingleLine(kind: string, id: Int32, src: Location, dst: Location, at: string)
    requires '\n' !in kind && SingleLine(src) && SingleLine(dst) && '\n' !in at
    ensures '\n' !in Format(kind, id, src, dst, at)
  {
    IntToStringSingleLine(id);
    var prefix := kind + " " + IntToString(id) + " going from " + src.display;
    assert '\n' !in prefix;
  }

  /** The text `reportAll` returns for a sequence of vehicles. */
  function Report(s: seq<Movable>): (r: string)
    reads Refs(s)
    ensures s == [] ==> r == ""
  {
    Join(Lines(s))
  }

  /** A report has one line per vehicle, in input order, each the vehicle's own line,
      whatever the mix of kinds, as long as no location's display breaks a line. */
  lemma ReportOneLinePerVehicle(s: seq<Movable>)
    requires |s| >= 1
    requires forall k :: 0 <= k < |s| ==> SingleLine(s[k].Source()) && SingleLine(s[k].Destination())
    ensures |Split(Report(s))| == |s|
    ensures forall k :: 0 <= k < |s| ==> Split(Report(s))[k] == Line(s[k])
  {
    var lines := Lines(s);
    forall k | 0 <= k < |lines|
      ensures '\n' !in lines[k]
    {
      LineSingleLine(s[k]);
    }
    SplitJoin(lines);
  }

  /** A plane with licence 7 flying from A to B is reported as at A. */
  lemma ReportOnePlane(p: Plane)
    requires p.licenceNumber == 7 && p.source == Location("A") && p.destination == Location("B")
    ensures Report([AsPlane(p)]) == "Plane 7 going from A to B. Currently in A"
  {
    var v := AsPlane(p);
    LineOfPlane(p);
    assert [v][..0] == [];
    assert Lines([v]) == [Line(v)];
  }

  lemma LineOfPlane(p: Plane)
    requires p.licenceNumber == 7 && p.source == Location("A") && p.destination == Location("B")
    ensures Line(AsPlane(p)) == "Plane 7 going from A to B. Currently in A"
  {
    var v := AsPlane(p);
    DecimalSeven();
    assert v.Type() == "Plane" && v.CurrentLocation() == "A";
    assert Line(v) == "Plane" + " " + "7" + " going from " + "A" + " to " + "B" + ". Currently in " + "A";
    ExampleText();
  }

  lemma ExampleText()
    ensures "Plane" + " " + "7" + " going from " + "A" + " to " + "B" + ". Currently in " + "A"
      == "Plane 7 going from A to B. Currently in A"
  {
  }

  lemma DecimalSeven()
    ensures IntToString(7) == "7"
  {
    assert NatToString(7) == [DigitChar(7)];
  }

  /** `reportAll`: builds the lines in a buffer, one vehicle at a time, and joins them.
      It has no `modifies` clause, so no vehicle and not the array change. */
  method ReportAll(movables: array<Movable>) returns (r: string)
    ensures r == Report(movables[..])
  {
    var buffer: seq<string> := [];
    var i := 0;
    while i < movables.Length
      invariant 0 <= i <= movables.Length
      invariant buffer == Lines(movables[..i])
    {
      assert movables[..i + 1][..i] == movables[..i];
      buffer := buffer + [Line(movables[i])];
      i := i + 1;
    }
    assert movables[..i] == movables[..];
    r := Join(buffer);
  }

  /** The comparator is consistent on the sequence: no difference of two keys overflows. */
  predicate KeysComparable(s: seq<Movable>)
  {
    forall i, j :: 0 <= i < |s| && 0 <= j < |s| ==> Fits(s[i].Key() - s[j].Key())
  }

  /** Keys ascending along a sequence of vehicles. */
  predicate SortedByKey(s: seq<Movable>)
  {
    forall p, q :: 0 <= p < q < |s| ==> s[p].Key() <= s[q].Key()
  }

  /** `sortTransport`: sorts vehicles of one kind in place, ascending by `compareTo`.
      A mixed array is excluded (Java's `ClassCastException` from `compareTo`), and so is one whose
      keys are far enough apart for the subtraction to overflow, on which `compareTo` is no order. */
  method SortTransport(a: array<Movable>)
    requires Homogeneous(a[..])
    requires KeysComparable(a[..])
    modifies a
    ensures multiset(a[..]) == multiset(old(a[..]))
    ensures Homogeneous(a[..])
    ensures SortedByKey(a[..])
    ensures forall i, j :: 0 <= i < j < a.Length ==> CompareTo(a[i], a[j]) <= 0
  {
    ghost var before := a[..];
    ghost var kind := if a.Length == 0 then PlaneKind else a[0].Kind();
    var i := 0;
    while i < a.Length
      invariant 0 <= i <= a.Length
      invariant forall k :: 0 <= k < a.Length ==> a[k].Kind() == kind
      invariant forall p, q :: 0 <= p < q < i ==> a[p].Key() <= a[q].Key()
      invariant multiset(a[..]) == multiset(before)
    {
      Insert(a, i, kind);
      i := i + 1;
    }
    PermutationKeepsComparable(before, a[..]);
  }

  /** One pass of insertion sort: moves `a[i]` down into the sorted prefix `a[..i]`. */
  method Insert(a: array<Movable>, i: nat, ghost kind: Kind)
    requires i < a.Length
    requires forall k :: 0 <= k < a.Length ==> a[k].Kind() == kind
    requires forall p, q :: 0 <= p < q < i ==> a[p].Key() <= a[q].Key()
    modifies a
    ensures forall k :: 0 <= k < a.Length ==> a[k].Kind() == kind
    ensures forall p, q :: 0 <= p < q <= i ==> a[p].Key() <= a[q].Key()
    ensures multiset(a[..]) == multiset(old(a[..]))
    ensures a[i + 1..] == old(a[i + 1..])
  {
    var j := i;
    while j > 0 && a[j - 1].Key() > a[j].Key()
      invariant 0 <= j <= i
      invariant forall k :: 0 <= k < a.Length ==> a[k].Kind() == kind
      invariant forall p, q :: 0 <= p < q <= i && p != j && q != j ==> a[p].Key() <= a[q].Key()
      invariant forall q :: j < q <= i ==> a[j].Key() < a[q].Key()
      invariant multiset(a[..]) == multiset(old(a[..]))
      invariant a[i + 1..] == old(a[i + 1..])
    {
      SwapAdjacent(a, j);
      j := j - 1;
    }
  }

  /** Exchanges `a[j - 1]` and `a[j]`. */
  method SwapAdjacent(a: array<Movable>, j: nat)
    requires 0 < j < a.Length
    modifies a
    ensures a[j - 1] == old(a[j]) && a[j] == old(a[j - 1])
    ensures forall k :: 0 <= k < a.Length && k != j - 1 && k != j ==> a[k] == old(a[k])
    ensures multiset(a[..]) == multiset(old(a[..]))
  {
    a[j - 1], a[j] := a[j], a[j - 1];
  }

  /** A sorted permutation of vehicles whose keys are pairwise comparable is ascending under `compareTo`. */
  lemma PermutationKeepsComparable(before: seq<Movable>, after: seq<Movable>)
    requires multiset(after) == multiset(before)
    requires Homogeneous(after) && KeysComparable(before) && SortedByKey(after)
    ensures forall i, j :: 0 <= i < j < |after| ==> CompareTo(after[i], after[j]) <= 0
  {
    forall i, j | 0 <= i < j < |after|
      ensures CompareTo(after[i], after[j]) <= 0
    {
      assert after[i] in multiset(before) && after[j] in multiset(before);
      var m :| 0 <= m < |before| && before[m] == after[i];
      var n :| 0 <= n < |before| && before[n] == after[j];
      assert Fits(after[i].Key() - after[j].Key());
    }
  }
}
