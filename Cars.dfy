/** racingcar.domain.Cars: the validated registry of the first variant. It checks the raw name list,
    builds trimmed cars in order, plays rounds and names the winners. */
module Cars {
  import opened Wrappers
  import opened JavaStrings
  import opened Rounds
  import opened WinnerResolver
  import opened Car
  import opened NumberGenerator

  /** The fewest cars a race may have. */
  const CAR_LIMIT: nat := 2

  /** The exceptions of the class: the two IllegalArgumentException cases of the constructor and the
      NoSuchElementException of the maximum search. */
  datatype Error = TooFewCars | DuplicatedNames | NoMaxPositionCar

  predicate IsCars(names: seq<string>)
  {
    |names| >= CAR_LIMIT
  }

  /** The distinct names, as new HashSet<>(Arrays.asList(names)) collects them. */
  function NameSet(names: seq<string>): set<string>
  {
    set n | n in names
  }

  /** The set of names is smaller than the list exactly when some name occurs twice. */
  predicate IsDuplicated(names: seq<string>)
    ensures IsDuplicated(names) <==> HasRepeat(names)
  {
    NameSetSize(names);
    |NameSet(names)| != |names|
  }

  /** Two entries of the list are the same string. */
  ghost predicate HasRepeat(names: seq<string>)
  {
    exists i, j :: 0 <= i < j < |names| && names[i] == names[j]
  }

  /** The set of names is never larger than the list, and it is as large exactly when no name repeats. */
  lemma {:induction false} NameSetSize(names: seq<string>)
    ensures |NameSet(names)| <= |names|
    ensures |NameSet(names)| == |names| <==> !HasRepeat(names)
  {
    if names != [] {
      var rest := names[1..];
      NameSetSize(rest);
      assert NameSet(names) == {names[0]} + NameSet(rest);
      if names[0] in rest {
        var k :| 0 <= k < |rest| && rest[k] == names[0];
        assert names[0] == names[k + 1];
        assert NameSet(names) == NameSet(rest);
      } else {
        assert names[0] !in NameSet(rest);
        if HasRepeat(names) {
          var i, j :| 0 <= i < j < |names| && names[i] == names[j];
          assert i > 0;
          assert rest[i - 1] == rest[j - 1];
        }
        if HasRepeat(rest) {
          var i, j :| 0 <= i < j < |rest| && rest[i] == rest[j];
          assert names[i + 1] == names[j + 1];
        }
      }
    }
  }

  /** checkValid: too few names fails first, then a repeated name fails; otherwise the list passes.
      The comparison is on the raw tokens, before any trimming. */
  function CheckValid(names: seq<string>): (r: Option<Error>)
    ensures r == Some(TooFewCars) <==> |names| < CAR_LIMIT
    ensures r == Some(DuplicatedNames) <==> |names| >= CAR_LIMIT && HasRepeat(names)
    ensures r == None <==> |names| >= CAR_LIMIT && !HasRepeat(names)
  {
    if !IsCars(names) then Some(TooFewCars)
    else if IsDuplicated(names) then Some(DuplicatedNames)
    else None
  }

  /** Because the check runs before trim, "pobi, pobi" splits into "pobi" and " pobi", which pass it,
      and both cars are named "pobi". */
  lemma DuplicateAfterTrimPasses()
    ensures Split("pobi, pobi") == ["pobi", " pobi"]
    ensures CheckValid(["pobi", " pobi"]) == None
    ensures Trim("pobi") == Trim(" pobi") == "pobi"
  {
    SplitKeepsBlanks();
    assert CheckValid(["pobi", " pobi"]) == None by {
      assert ["pobi", " pobi"][0] != ["pobi", " pobi"][1];
    }
    TrimLeadingBlank();
  }

  /** The comma list "pobi,woni,pobi" fails with the duplicate error and "pobi" alone with the
      too-few error. */
  lemma RejectedNameLists()
    ensures CheckValid(Split("pobi,woni,pobi")) == Some(DuplicatedNames)
    ensures CheckValid(Split("pobi")) == Some(TooFewCars)
  {
    var ps := ["pobi", "woni", "pobi"];
    assert Join(ps[2..]) == "pobi";
    assert Join(ps[1..]) == "woni,pobi";
    assert Join(ps) == "pobi,woni,pobi";
    SplitJoin(ps);
    assert Split("pobi,woni,pobi")[0] == Split("pobi,woni,pobi")[2];
    SplitJoin(["pobi"]);
  }

  /** stream().max(Car::compareTo) as a left fold: a later car replaces the best so far only when it
      is strictly ahead, so the result is the first car at the largest position. */
  function MaxIndex(cars: seq<Car>): (k: nat)
    requires cars != []
    reads Positions(cars)
    ensures k < |cars|
    ensures forall j :: 0 <= j < |cars| ==> cars[j].GetPosition() <= cars[k].GetPosition()
    ensures forall j :: 0 <= j < k ==> cars[j].GetPosition() < cars[k].GetPosition()
  {
    if |cars| == 1 then 0
    else
      var best := MaxIndex(cars[..|cars| - 1]);
      if cars[best].CompareTo(cars[|cars| - 1]) >= 0 then best else |cars| - 1
  }

  /** A car no other car is ahead of stands at the largest position of the snapshot. */
  lemma LeaderAtMaxPosition(cars: seq<Car>, leader: Car)
    requires leader in cars
    requires forall c :: c in cars ==> c.GetPosition() <= leader.GetPosition()
    ensures leader.GetPosition() == MaxPosition(Snapshot(cars))
  {
    var s := Snapshot(cars);
    SnapshotElements(cars);
    var j :| 0 <= j < |s| && s[j].position == MaxPosition(s);
    assert cars[j] in cars;
    var k :| 0 <= k < |cars| && cars[k] == leader;
    assert s[k].position == leader.GetPosition();
  }

  class Cars {
    var cars: seq<Car>

    /** At least two cars, each with its own counter. */
    ghost predicate Valid()
      reads this
    {
      |cars| >= CAR_LIMIT && Distinct(cars)
    }

    /** The constructor, reached once checkValid has passed: one car per name, in order. */
    constructor FromChecked(names: seq<string>)
      requires CheckValid(names) == None
      ensures Valid()
      ensures |cars| == |names|
      ensures forall j :: 0 <= j < |names| ==> cars[j].name == Trim(names[j]) && cars[j].GetPosition() == 0
      ensures fresh(Positions(cars))
    {
      var built := BuildCars(names);
      cars := built;
    }

    /** The constructor's loop: createCar on every name, in order, each car with a counter of its own. */
    static method BuildCars(names: seq<string>) returns (cars: seq<Car>)
      ensures |cars| == |names| && Distinct(cars)
      ensures forall j :: 0 <= j < |names| ==> cars[j].name == Trim(names[j]) && cars[j].GetPosition() == 0
      ensures fresh(Positions(cars))
    {
      cars := [];
      for i := 0 to |names|
        invariant |cars| == i
        invariant Distinct(cars)
        invariant forall j :: 0 <= j < i ==> cars[j].name == Trim(names[j]) && cars[j].GetPosition() == 0
        invariant fresh(Positions(cars))
      {
        var car := CreateCar(names[i]);
        DistinctAppend(cars, car);
        cars := cars + [car];
      }
    }

    /** createCar: a new car under the trimmed name. */
    static method CreateCar(name: string) returns (car: Car)
      ensures fresh(car) && fresh(car.position)
      ensures car.name == Trim(name) && car.position.position == 0
    {
      car := new Car(Trim(name));
    }

    /** new Cars(String[]): fails with the error checkValid reports, so no registry exists then;
        otherwise one car per name, in name order, each at position 0 under its trimmed name. */
    static method Create(names: seq<string>) returns (r: Result<Cars, Error>)
      ensures r.Failure? <==> CheckValid(names).Some?
      ensures r.Failure? ==> r.error == CheckValid(names).value
      ensures r.Success? ==> fresh(r.value) && fresh(Positions(r.value.cars)) && r.value.Valid()
      ensures r.Success? ==> |r.value.cars| == |names|
      ensures r.Success? ==> forall j :: 0 <= j < |names| ==>
                r.value.cars[j].name == Trim(names[j]) && r.value.cars[j].GetPosition() == 0
    {
      var invalid := CheckValid(names);
      if invalid.Some? {
        return Failure(invalid.value);
      }
      var created := new Cars.FromChecked(names);
      return Success(created);
    }

    /** new Cars(String): the same, on the tokens of names.split(","). */
    static method FromString(names: string) returns (r: Result<Cars, Error>)
      ensures r.Failure? <==> CheckValid(Split(names)).Some?
      ensures r.Failure? ==> r.error == CheckValid(Split(names)).value
      ensures r.Success? ==> fresh(r.value) && fresh(Positions(r.value.cars)) && r.value.Valid()
      ensures r.Success? ==> |r.value.cars| == |Split(names)|
      ensures r.Success? ==> forall j :: 0 <= j < |Split(names)| ==>
                r.value.cars[j].name == Trim(Split(names)[j]) && r.value.cars[j].GetPosition() == 0
    {
      r := Create(Split(names));
    }

    /** hasNext: takes one draw and says whether it moves the car. */
    static method HasNext(generator: NumberGenerator) returns (go: bool)
      requires generator.Valid() && generator.pending != []
      modifies generator
      ensures generator.Valid() && generator.pending == old(generator.pending)[1..]
      ensures go == Moves(old(generator.pending)[0])
    {
      var number := generator.GetNumber();
      go := number > DRIVE_FLAG;
    }

    /** play: every car, in list order, takes exactly one draw and moves by one iff it is above
        DRIVE_FLAG; the list itself (membership and order) is untouched. */
    method Play(generator: NumberGenerator)
      requires Valid() && generator.Valid()
      requires |cars| <= |generator.pending|
      modifies Positions(cars), generator
      ensures Valid() && generator.Valid()
      ensures cars == old(cars)
      ensures generator.pending == old(generator.pending)[|cars|..]
      ensures Snapshot(cars) == Round(old(Snapshot(cars)), old(generator.pending)[..|cars|])
    {
      ghost var before := Snapshot(cars);
      ghost var draws := generator.pending;
      SnapshotElements(cars);
      for i := 0 to |cars|
        invariant generator.Valid() && generator.pending == draws[i..]
        invariant forall j :: 0 <= j < i ==> cars[j].GetPosition() == Advance(before[j], draws[j]).position
        invariant forall j :: i <= j < |cars| ==> cars[j].GetPosition() == before[j].position
      {
        var go := HasNext(generator);
        cars[i].Drive(go);
      }
      SnapshotElements(cars);
      assert Snapshot(cars) == Round(before, draws[..|cars|]);
    }

    /** findMaxPositionCar: the first car at the largest position, or None (the
        NoSuchElementException) exactly when there is no car. */
    function FindMaxPositionCar(): (r: Option<Car>)
      reads this, Positions(cars)
      ensures r.None? <==> cars == []
      ensures r.Some? ==> r.value in cars && forall c :: c in cars ==> c.GetPosition() <= r.value.GetPosition()
    {
      if cars == [] then None else Some(cars[MaxIndex(cars)])
    }

    /** findSamePositionCar: the names of the cars tied with `target`, in list order. */
    function FindSamePositionCar(target: Car): (r: seq<string>)
      reads this, Positions(cars), target.position
      ensures r == Names(AtPosition(Snapshot(cars), target.GetPosition()))
    {
      Names(Snapshot(CarsAt(cars, target.GetPosition())))
    }

    /** findWinners: the names of every car at the largest position, in list order; it fails only on
        an empty list, so on a registry of at least two cars it succeeds with at least one name. */
    function FindWinners(): (r: Result<seq<string>, Error>)
      reads this, Positions(cars)
      ensures r.Failure? <==> cars == []
      ensures r.Failure? ==> r.error == NoMaxPositionCar
      ensures r.Success? ==> r.value == Names(Winners(Snapshot(cars)))
      ensures |cars| >= CAR_LIMIT ==> r.Success? && r.value != []
    {
      match FindMaxPositionCar()
      case None => Failure(NoMaxPositionCar)
      case Some(target) =>
        LeaderAtMaxPosition(cars, target);
        Success(FindSamePositionCar(target))
    }
  }
}
