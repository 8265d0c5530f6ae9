/** domain.Field: runs the attempts of a race over a RacingCars registry and keeps, in an insertion
    ordered map, the snapshot of the cars taken after each attempt. */
module Field {
  import opened JavaStrings
  import opened LinkedMaps
  import opened Rounds
  import opened WinnerResolver
  import opened Car
  import opened NumberGenerator
  import opened RacingCars

  class Field {
    const racingCars: RacingCars
    const numberGenerator: NumberGenerator
    /** The LinkedHashMap from attempt number to the snapshot taken after it. */
    var record: Record

    ghost predicate Valid()
      reads this, numberGenerator
    {
      racingCars.Valid() && numberGenerator.Valid() && LinkedMaps.Valid(record)
    }

    /** A field starts with an empty record. */
    constructor(racingCars: RacingCars, numberGenerator: NumberGenerator)
      requires racingCars.Valid() && numberGenerator.Valid()
      ensures Valid()
      ensures this.racingCars == racingCars && this.numberGenerator == numberGenerator
      ensures record == Empty()
    {
      this.racingCars := racingCars;
      this.numberGenerator := numberGenerator;
      record := Empty();
    }

    /** race(n): attempts 1..n, each moving every car once (round-major, then list order, one draw per
        car) and then putting the snapshot under the attempt number. Exactly AttemptsRun(n) * |cars|
        draws are taken; for n <= 0 nothing happens and no error is raised. */
    method Race(numberOfAttempts: int)
      requires Valid()
      requires DrawsUsed(AttemptsRun(numberOfAttempts), |racingCars.cars|) <= |numberGenerator.pending|
      modifies this, numberGenerator, Positions(racingCars.cars)
      ensures Valid()
      ensures numberGenerator.pending
           == old(numberGenerator.pending)[DrawsUsed(AttemptsRun(numberOfAttempts), |racingCars.cars|)..]
      ensures Snapshot(racingCars.cars)
           == After(old(Snapshot(racingCars.cars)), old(numberGenerator.pending), AttemptsRun(numberOfAttempts))
      ensures record
           == Recorded(old(record), old(Snapshot(racingCars.cars)), old(numberGenerator.pending),
                       AttemptsRun(numberOfAttempts))
    {
      var cars := racingCars.GetAllCars();
      ghost var before := Snapshot(cars);
      ghost var draws := numberGenerator.pending;
      ghost var start := record;
      ghost var n := AttemptsRun(numberOfAttempts);
      var attempt := 1;
      while attempt <= numberOfAttempts
        invariant 1 <= attempt && attempt - 1 <= n
        invariant DrawsUsed(attempt - 1, |cars|) <= |draws|
        invariant numberGenerator.Valid() && numberGenerator.pending == draws[DrawsUsed(attempt - 1, |cars|)..]
        invariant Snapshot(cars) == After(before, draws, attempt - 1)
        invariant record == Recorded(start, before, draws, attempt - 1)
        decreases numberOfAttempts - attempt
      {
        DrawsUsedMonotone(attempt, n, |cars|);
        AfterNext(before, draws, attempt);
        RecordedNext(start, before, draws, attempt);
        RunSingleAttempt(cars);
        assert Snapshot(cars) == After(before, draws, attempt);
        assert numberGenerator.pending == draws[DrawsUsed(attempt, |cars|)..];
        RecordAttempt(attempt, cars);
        attempt := attempt + 1;
      }
      assert attempt - 1 == n;
      RecordedValid(start, before, draws, n);
    }

    /** runSingleAttempt: every car, in list order, takes the next draw and executes it. */
    method RunSingleAttempt(cars: seq<Car>)
      requires Distinct(cars) && numberGenerator.Valid()
      requires |cars| <= |numberGenerator.pending|
      modifies Positions(cars), numberGenerator
      ensures numberGenerator.Valid()
      ensures numberGenerator.pending == old(numberGenerator.pending)[|cars|..]
      ensures Snapshot(cars) == Round(old(Snapshot(cars)), old(numberGenerator.pending)[..|cars|])
    {
      ghost var before := Snapshot(cars);
      ghost var draws := numberGenerator.pending;
      SnapshotElements(cars);
      for i := 0 to |cars|
        invariant numberGenerator.Valid() && numberGenerator.pending == draws[i..]
        invariant forall j :: 0 <= j < i ==> cars[j].GetPosition() == Advance(before[j], draws[j]).position
        invariant forall j :: i <= j < |cars| ==> cars[j].GetPosition() == before[j].position
      {
        var randomNumber := numberGenerator.GetNumber();
        cars[i].Execute(randomNumber);
      }
      SnapshotElements(cars);
      assert Snapshot(cars) == Round(before, draws[..|cars|]);
    }

    /** recordAttempt: puts the snapshot of the cars under the attempt number. */
    method RecordAttempt(attempt: int, cars: seq<Car>)
      modifies this
      ensures record == Put(old(record), attempt, old(Snapshot(cars)))
      ensures unchanged(Positions(cars))
    {
      record := Put(record, attempt, Snapshot(cars));
    }

    /** getRacingRecord: the record itself. */
    function GetRacingRecord(): (r: Record)
      reads this
      ensures r == record
    {
      record
    }

    /** getWinners: the snapshots of the cars at the maximum position, in registry order (the source
        calls this registry operation getMaxPositionCars; it is RacingCars.getWinners). */
    function GetWinners(): (r: seq<CarDto>)
      reads Positions(racingCars.cars)
      ensures r == Winners(Snapshot(racingCars.cars))
    {
      Snapshot(racingCars.GetWinners())
    }
  }

  /** The snapshot of new cars named `names`: every car at position 0. */
  function StartingGrid(names: seq<string>): (g: seq<CarDto>)
    ensures |g| == |names|
    ensures forall j :: 0 <= j < |names| ==> g[j] == CarDto(names[j], 0)
  {
    seq(|names|, j requires 0 <= j < |names| => CarDto(names[j], 0))
  }

  /** The whole flow the controller drives: build the registry from the comma list, race n attempts on
      the given draws, read the record and the winners. Both results are fixed by the names, the draws
      and n alone, so the same inputs always give the same record and the same winners; the record's
      keys are 1..n in increasing order. */
  method RunRace(carNames: string, draws: seq<int>, numberOfAttempts: int)
      returns (record: Record, winners: seq<CarDto>)
    requires AllDigits(draws)
    requires DrawsUsed(AttemptsRun(numberOfAttempts), |Split(carNames)|) <= |draws|
    ensures record == Recorded(Empty(), StartingGrid(Split(carNames)), draws, AttemptsRun(numberOfAttempts))
    ensures record.order == Span(AttemptsRun(numberOfAttempts))
    ensures winners == Winners(After(StartingGrid(Split(carNames)), draws, AttemptsRun(numberOfAttempts)))
  {
    var racingCars := new RacingCars(carNames);
    var generator := new NumberGenerator(draws);
    var field := new Field(racingCars, generator);
    SnapshotElements(racingCars.cars);
    assert Snapshot(racingCars.cars) == StartingGrid(Split(carNames));
    field.Race(numberOfAttempts);
    record := field.GetRacingRecord();
    winners := field.GetWinners();
    FreshRecordOrder(StartingGrid(Split(carNames)), draws, AttemptsRun(numberOfAttempts));
  }
}
