/** domain.RacingCars: the registry of the second variant. It splits the comma list into cars with no
    checks at all and answers the maximum position and the cars standing at it. */
module RacingCars {
  import opened JavaStrings
  import opened Rounds
  import opened WinnerResolver
  import opened Car

  class RacingCars {
    /** The list is built once and never replaced; only the cars' counters move. */
    const cars: seq<Car>

    /** Each car has a counter of its own. */
    ghost predicate Valid()
    {
      Distinct(cars)
    }

    /** One car per token of carNames.split(","), in token order, named by the raw token (no trim,
        no count or duplicate check), each at position 0. */
    constructor(carNames: string)
      ensures Valid() && fresh(Positions(cars))
      ensures |cars| == |Split(carNames)|
      ensures forall j :: 0 <= j < |cars| ==> cars[j].name == Split(carNames)[j] && cars[j].GetPosition() == 0
    {
      var generated := GenerateCars(carNames);
      cars := generated;
    }

    /** generateCars: new Car(token) for every token of the split, in order. */
    static method GenerateCars(carNames: string) returns (cars: seq<Car>)
      ensures Distinct(cars) && fresh(Positions(cars))
      ensures |cars| == |Split(carNames)|
      ensures forall j :: 0 <= j < |cars| ==> cars[j].name == Split(carNames)[j] && cars[j].GetPosition() == 0
    {
      var tokens := Split(carNames);
      cars := [];
      for i := 0 to |tokens|
        invariant |cars| == i && Distinct(cars) && fresh(Positions(cars))
        invariant forall j :: 0 <= j < i ==> cars[j].name == tokens[j] && cars[j].GetPosition() == 0
      {
        var car := new Car(tokens[i]);
        DistinctAppend(cars, car);
        cars := cars + [car];
      }
    }

    /** getAllCars: the registry's own list, not a copy, so moving its cars moves the registry's. */
    function GetAllCars(): (r: seq<Car>)
      ensures r == cars
    {
      cars
    }

    /** getMaxPosition: the largest position of any car, 0 for an empty list. */
    function GetMaxPosition(): (m: nat)
      reads Positions(cars)
      ensures forall c :: c in cars ==> c.GetPosition() <= m
      ensures cars == [] ==> m == 0
      ensures cars != [] ==> exists c :: c in cars && c.GetPosition() == m
      ensures m == MaxPosition(Snapshot(cars))
    {
      MaxPositionOfCars(cars);
      MaxPosition(Snapshot(cars))
    }

    /** getWinners: the cars at the maximum position, in list order: the car objects themselves, each
        once, picked by increasing index. They are exactly the cars of the list at that position,
        ahead of or level with every car, and there is at least one when the list is non-empty. Being
        a function, it moves no car and leaves the list alone. */
    function GetWinners(): (r: seq<Car>)
      reads Positions(cars)
      ensures forall w :: w in r ==> w in cars && w.GetPosition() == GetMaxPosition()
      ensures forall c :: c in cars && c.GetPosition() == GetMaxPosition() ==> c in r
      ensures forall w, c :: w in r && c in cars ==> c.GetPosition() <= w.GetPosition()
      ensures cars != [] ==> r != []
      ensures Snapshot(r) == Winners(Snapshot(cars))
      ensures exists idx :: SelectsAt(cars, GetMaxPosition(), idx, r)
    {
      var m := GetMaxPosition();
      CarsAtSelects(cars, m);
      CarsAt(cars, m)
    }
  }
}
