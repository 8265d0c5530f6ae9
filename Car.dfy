/** A car: a fixed name and a Position counter. Both source variants use it through the operations
    below (drive and compareTo in one, execute and the position query in the other). */
module Car {
  import opened Rounds
  import opened WinnerResolver
  import Position

  class Car {
    const name: string
    const position: Position.Position

    /** A new car stands at position 0 under the name it was given. */
    constructor(name: string)
      ensures this.name == name && fresh(position) && position.position == 0
    {
      this.name := name;
      position := new Position.Position();
    }

    function GetPosition(): nat
      reads position
    {
      position.GetPosition()
    }

    /** Moves one step when `go` holds and stays put otherwise. */
    method Drive(go: bool)
      modifies position
      ensures position.position == old(position.position) + (if go then 1 else 0)
    {
      if go {
        position.Increase();
      }
    }

    /** Moves one step exactly when the draw is above DRIVE_FLAG. */
    method Execute(number: int)
      modifies position
      ensures position.position == old(position.position) + (if number > 3 then 1 else 0)
    {
      Drive(Moves(number));
    }

    /** Orders cars by position only; the name plays no part. */
    function CompareTo(other: Car): (r: int)
      reads position, other.position
      ensures r == 0 <==> GetPosition() == other.GetPosition()
      ensures r > 0 <==> GetPosition() > other.GetPosition()
    {
      position.CompareTo(other.position)
    }

    /** Two cars tie when their positions are equal. */
    predicate IsSamePosition(other: Car)
      reads position, other.position
      ensures IsSamePosition(other) <==> GetPosition() == other.GetPosition()
    {
      position.Equals(other.position)
    }

    /** The car stands at position p. */
    predicate IsAtPosition(p: int)
      reads position
    {
      position.GetPosition() == p
    }

    /** The car as the record shows it. */
    function ToDto(): CarDto
      reads position
    {
      CarDto(name, position.position)
    }
  }

  /** The position counters of a list of cars: what moving them changes. */
  ghost function Positions(cars: seq<Car>): set<Position.Position>
  {
    set c | c in cars :: c.position
  }

  /** No two entries of the list share a counter (so moving one car never moves another). */
  ghost predicate Distinct(cars: seq<Car>)
  {
    forall i, j :: 0 <= i < j < |cars| ==> cars[i].position != cars[j].position
  }

  /** Appending a car whose counter is new to the list keeps the counters distinct. */
  lemma DistinctAppend(cars: seq<Car>, car: Car)
    requires Distinct(cars) && car.position !in Positions(cars)
    ensures Distinct(cars + [car])
    ensures Positions(cars + [car]) == Positions(cars) + {car.position}
  {
    assert forall j :: 0 <= j < |cars| ==> cars[j] in cars;
  }

  /** The (name, position) pairs of the cars in list order (what DtoMapper.convert produces). */
  function Snapshot(cars: seq<Car>): (s: seq<CarDto>)
    reads Positions(cars)
    ensures |s| == |cars|
  {
    if cars == [] then [] else [cars[0].ToDto()] + Snapshot(cars[1..])
  }

  /** Entry j of the snapshot is car j's name and position. */
  lemma {:induction false} SnapshotElements(cars: seq<Car>)
    ensures forall j :: 0 <= j < |cars| ==> Snapshot(cars)[j] == cars[j].ToDto()
  {
    if cars != [] {
      SnapshotElements(cars[1..]);
      assert forall j :: 1 <= j < |cars| ==> cars[1..][j - 1] == cars[j];
    }
  }

  /** The largest position of the snapshot bounds every car and, on a non-empty list, some car has it. */
  lemma MaxPositionOfCars(cars: seq<Car>)
    ensures forall c :: c in cars ==> c.GetPosition() <= MaxPosition(Snapshot(cars))
    ensures cars != [] ==> exists c :: c in cars && c.GetPosition() == MaxPosition(Snapshot(cars))
  {
    var s := Snapshot(cars);
    SnapshotElements(cars);
    forall c | c in cars
      ensures c.GetPosition() <= MaxPosition(s)
    {
      var j :| 0 <= j < |cars| && cars[j] == c;
      assert s[j].position == c.GetPosition();
    }
    if cars != [] {
      var j :| 0 <= j < |s| && s[j].position == MaxPosition(s);
      assert cars[j] in cars;
    }
  }

  /** The cars standing at position p, in list order: their snapshot is the filtered snapshot. */
  function CarsAt(cars: seq<Car>, p: int): (r: seq<Car>)
    reads Positions(cars)
    ensures forall c :: c in r ==> c in cars && c.GetPosition() == p
    ensures forall c :: c in cars && c.GetPosition() == p ==> c in r
    ensures Snapshot(r) == AtPosition(Snapshot(cars), p)
  {
    if cars == [] then []
    else
      var rest := CarsAt(cars[1..], p);
      assert Snapshot(cars)[1..] == Snapshot(cars[1..]);
      if cars[0].IsAtPosition(p) then [cars[0]] + rest else rest
  }

  /** `r` is cars[idx[0]], cars[idx[1]], ... for indices `idx` that increase strictly and are exactly
      the indices of the cars standing at p: the cars of the list at p, each once, in list order. */
  ghost predicate SelectsAt(cars: seq<Car>, p: int, idx: seq<nat>, r: seq<Car>)
    reads Positions(cars)
  {
    && |idx| == |r|
    && (forall i :: 0 <= i < |idx| ==> idx[i] < |cars| && r[i] == cars[idx[i]])
    && (forall i, j :: 0 <= i < j < |idx| ==> idx[i] < idx[j])
    && (forall k :: 0 <= k < |cars| ==> (cars[k].GetPosition() == p <==> k in idx))
  }

  /** Every index moved one place to the right. */
  function Shift(idx: seq<nat>): (r: seq<nat>)
    ensures |r| == |idx| && forall i :: 0 <= i < |idx| ==> r[i] == idx[i] + 1
  {
    seq(|idx|, i requires 0 <= i < |idx| => idx[i] + 1)
  }

  /** A selection from the tail, shifted one place, picks from the whole list the same cars, in the
      same order, and covers exactly the indices past the head that stand at p. */
  lemma SelectsAtShift(cars: seq<Car>, p: int, tailIdx: seq<nat>, rest: seq<Car>)
    requires cars != [] && SelectsAt(cars[1..], p, tailIdx, rest)
    ensures |Shift(tailIdx)| == |rest|
    ensures forall i :: 0 <= i < |rest| ==> 1 <= Shift(tailIdx)[i] < |cars| && rest[i] == cars[Shift(tailIdx)[i]]
    ensures forall i, j :: 0 <= i < j < |rest| ==> Shift(tailIdx)[i] < Shift(tailIdx)[j]
    ensures forall k :: 1 <= k < |cars| ==> (cars[k].GetPosition() == p <==> k in Shift(tailIdx))
    ensures 0 !in Shift(tailIdx)
  {
    var shifted := Shift(tailIdx);
    forall i | 0 <= i < |rest|
      ensures 1 <= shifted[i] < |cars| && rest[i] == cars[shifted[i]]
    {
      assert rest[i] == cars[1..][tailIdx[i]];
    }
    forall k | 1 <= k < |cars|
      ensures cars[k].GetPosition() == p <==> k in shifted
    {
      assert cars[k] == cars[1..][k - 1];
      if k - 1 in tailIdx {
        var i :| 0 <= i < |tailIdx| && tailIdx[i] == k - 1;
        assert shifted[i] == k;
      }
    }
  }

  /** Putting 0 in front of strictly increasing positive indices keeps them strictly increasing. */
  lemma LeadingZeroIncreasing(s: seq<nat>)
    requires forall i :: 0 <= i < |s| ==> s[i] >= 1
    requires forall i, j :: 0 <= i < j < |s| ==> s[i] < s[j]
    ensures forall i, j :: 0 <= i < j < |[0] + s| ==> ([0] + s)[i] < ([0] + s)[j]
  {
    var z := [0] + s;
    forall i, j | 0 <= i < j < |z|
      ensures z[i] < z[j]
    {
      assert z[j] == s[j - 1];
      if i > 0 {
        assert z[i] == s[i - 1];
      }
    }
  }

  /** Putting index 0 and the head in front of a selection keeps every entry the car its index names. */
  lemma LeadingHeadPicks(cars: seq<Car>, s: seq<nat>, rest: seq<Car>)
    requires cars != [] && |s| == |rest|
    requires forall i :: 0 <= i < |s| ==> s[i] < |cars| && rest[i] == cars[s[i]]
    ensures forall i :: 0 <= i < |[0] + s| ==> ([0] + s)[i] < |cars| && ([cars[0]] + rest)[i] == cars[([0] + s)[i]]
  {
    var idx, r := [0] + s, [cars[0]] + rest;
    forall i | 0 <= i < |idx|
      ensures idx[i] < |cars| && r[i] == cars[idx[i]]
    {
      if i > 0 {
        assert idx[i] == s[i - 1] && r[i] == rest[i - 1];
      }
    }
  }

  /** A head at p leads the shifted selection from the tail: a selection from the whole list. */
  lemma SelectsAtHead(cars: seq<Car>, p: int, tailIdx: seq<nat>, rest: seq<Car>)
    requires cars != [] && SelectsAt(cars[1..], p, tailIdx, rest)
    requires cars[0].IsAtPosition(p)
    ensures SelectsAt(cars, p, [0] + Shift(tailIdx), [cars[0]] + rest)
  {
    SelectsAtShift(cars, p, tailIdx, rest);
    var shifted := Shift(tailIdx);
    LeadingHeadPicks(cars, shifted, rest);
    LeadingZeroIncreasing(shifted);
    assert forall k :: 1 <= k < |cars| ==> (k in [0] + shifted <==> k in shifted);
  }

  /** A head away from p is skipped: the shifted selection from the tail selects from the list. */
  lemma SelectsAtSkip(cars: seq<Car>, p: int, tailIdx: seq<nat>, rest: seq<Car>)
    requires cars != [] && SelectsAt(cars[1..], p, tailIdx, rest)
    requires !cars[0].IsAtPosition(p)
    ensures SelectsAt(cars, p, Shift(tailIdx), rest)
  {
    SelectsAtShift(cars, p, tailIdx, rest);
  }

  /** The filter on a non-empty list: the head when it stands at p, then the filtered tail. */
  lemma CarsAtCons(cars: seq<Car>, p: int)
    requires cars != []
    ensures CarsAt(cars, p) == (if cars[0].IsAtPosition(p) then [cars[0]] else []) + CarsAt(cars[1..], p)
  {
  }

  /** The filter picks, in list order, exactly the car objects of the list that stand at p. */
  lemma {:induction false} CarsAtSelects(cars: seq<Car>, p: int)
    ensures exists idx :: SelectsAt(cars, p, idx, CarsAt(cars, p))
  {
    if cars == [] {
      assert CarsAt(cars, p) == [];
      assert SelectsAt(cars, p, [], []);
    } else {
      CarsAtSelects(cars[1..], p);
      var tailIdx :| SelectsAt(cars[1..], p, tailIdx, CarsAt(cars[1..], p));
      CarsAtCons(cars, p);
      if cars[0].IsAtPosition(p) {
        SelectsAtHead(cars, p, tailIdx, CarsAt(cars[1..], p));
      } else {
        SelectsAtSkip(cars, p, tailIdx, CarsAt(cars[1..], p));
      }
    }
  }

  /** The indices a list holds. */
  function Members(s: seq<nat>): set<nat>
  {
    set k | k in s
  }

  /** A strictly increasing index list holds as many distinct indices as it has entries. */
  lemma {:induction false} IncreasingMembers(s: seq<nat>)
    requires forall i, j :: 0 <= i < j < |s| ==> s[i] < s[j]
    ensures |Members(s)| == |s|
  {
    if s != [] {
      IncreasingMembers(s[1..]);
      assert Members(s) == {s[0]} + Members(s[1..]);
      assert s[0] !in Members(s[1..]);
    }
  }

  /** Strictly increasing index lists holding the same indices are the same list. */
  lemma {:induction false} IncreasingUnique(a: seq<nat>, b: seq<nat>)
    requires forall i, j :: 0 <= i < j < |a| ==> a[i] < a[j]
    requires forall i, j :: 0 <= i < j < |b| ==> b[i] < b[j]
    requires forall k :: k in a <==> k in b
    ensures a == b
  {
    IncreasingMembers(a);
    IncreasingMembers(b);
    assert Members(a) == Members(b);
    if a != [] {
      assert a[0] == b[0] by {
        assert a[0] in b && b[0] in a;
      }
      forall k
        ensures k in a[1..] <==> k in b[1..]
      {
        assert k in a[1..] <==> k in a && k != a[0];
        assert k in b[1..] <==> k in b && k != b[0];
      }
      IncreasingUnique(a[1..], b[1..]);
      assert a == [a[0]] + a[1..] && b == [b[0]] + b[1..];
    }
  }

  /** A selection of the cars at p is unique: two of them pick the same cars in the same order. */
  lemma SelectsAtUnique(cars: seq<Car>, p: int, idx1: seq<nat>, r1: seq<Car>, idx2: seq<nat>, r2: seq<Car>)
    requires SelectsAt(cars, p, idx1, r1) && SelectsAt(cars, p, idx2, r2)
    ensures r1 == r2
  {
    forall k
      ensures k in idx1 <==> k in idx2
    {
      if k in idx1 {
        var i :| 0 <= i < |idx1| && idx1[i] == k;
      }
      if k in idx2 {
        var i :| 0 <= i < |idx2| && idx2[i] == k;
      }
    }
    IncreasingUnique(idx1, idx2);
  }
}
