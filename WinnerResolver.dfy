/** Winner resolution as values: the largest position and the cars standing on it, in list order.
    This is the value form of RacingCars.getMaxPosition and RacingCars.getWinners; both registries
    and Field.getWinners are proved against it. */
module WinnerResolver {
  import opened Rounds

  /** The largest position, 0 for no cars (mapToInt(...).max().orElse(0)). */
  function MaxPosition(cars: seq<CarDto>): (m: nat)
    ensures forall j :: 0 <= j < |cars| ==> cars[j].position <= m
    ensures cars == [] ==> m == 0
    ensures cars != [] ==> exists j :: 0 <= j < |cars| && cars[j].position == m
  {
    if cars == [] then 0
    else
      var rest := MaxPosition(cars[1..]);
      if cars[0].position >= rest then cars[0].position else rest
  }

  /** The cars at position p, in list order (filter(... isSamePosition(p))). AtPositionMembers says
      which cars it keeps and AtPositionAppend that it keeps their order. */
  function AtPosition(cars: seq<CarDto>, p: int): seq<CarDto>
  {
    if cars == [] then []
    else (if cars[0].position == p then [cars[0]] else []) + AtPosition(cars[1..], p)
  }

  /** The filter keeps exactly the cars at position p. */
  lemma {:induction false} AtPositionMembers(cars: seq<CarDto>, p: int)
    ensures forall c :: c in AtPosition(cars, p) <==> c in cars && c.position == p
  {
    if cars != [] {
      AtPositionMembers(cars[1..], p);
      assert cars == [cars[0]] + cars[1..];
    }
  }

  /** The filter on a non-empty list: the head when it stands at p, then the filtered tail. */
  lemma AtPositionCons(cars: seq<CarDto>, p: int)
    requires cars != []
    ensures AtPosition(cars, p) == (if cars[0].position == p then [cars[0]] else []) + AtPosition(cars[1..], p)
  {
  }

  /** Concatenation is associative. */
  lemma ConcatAssociative(x: seq<CarDto>, y: seq<CarDto>, z: seq<CarDto>)
    ensures x + (y + z) == (x + y) + z
  {
  }

  /** Filtering keeps the list order: it distributes over concatenation. */
  lemma {:induction false} AtPositionAppend(a: seq<CarDto>, b: seq<CarDto>, p: int)
    ensures AtPosition(a + b, p) == AtPosition(a, p) + AtPosition(b, p)
  {
    if a == [] {
      assert a + b == b;
    } else {
      AtPositionAppend(a[1..], b, p);
      var ab := a + b;
      assert ab != [] && ab[0] == a[0] && ab[1..] == a[1..] + b;
      AtPositionCons(ab, p);
      AtPositionCons(a, p);
      ConcatAssociative(if a[0].position == p then [a[0]] else [], AtPosition(a[1..], p), AtPosition(b, p));
    }
  }

  /** The winners: every car at the largest position, in list order. A car is a winner exactly when it
      is at the largest position, no car is ahead of a winner, and there is a winner whenever there is
      a car. */
  function Winners(cars: seq<CarDto>): (r: seq<CarDto>)
    ensures forall c :: c in r <==> c in cars && c.position == MaxPosition(cars)
    ensures forall w, c :: w in r && c in cars ==> c.position <= w.position
    ensures cars != [] <==> r != []
  {
    AtPositionMembers(cars, MaxPosition(cars));
    AtPosition(cars, MaxPosition(cars))
  }

  /** Ties are all kept, in list order: positions {A: 2, B: 1, C: 2} give [A, C]. */
  lemma WinnersKeepTies()
    ensures Winners([CarDto("A", 2), CarDto("B", 1), CarDto("C", 2)]) == [CarDto("A", 2), CarDto("C", 2)]
  {
    var cars := [CarDto("A", 2), CarDto("B", 1), CarDto("C", 2)];
    assert cars[1..][1..][1..] == [];
    assert MaxPosition(cars) == 2;
  }

  /** Three cars at 0 drawing 4, 3, 4: the first and third move, and they are the winners. */
  lemma OneRoundExample()
    ensures Rounds.After([CarDto("car0", 0), CarDto("car1", 0), CarDto("car2", 0)], [4, 3, 4], 1)
         == [CarDto("car0", 1), CarDto("car1", 0), CarDto("car2", 1)]
    ensures Winners([CarDto("car0", 1), CarDto("car1", 0), CarDto("car2", 1)])
         == [CarDto("car0", 1), CarDto("car2", 1)]
  {
    var cars := [CarDto("car0", 0), CarDto("car1", 0), CarDto("car2", 0)];
    assert [4, 3, 4][0..3] == [4, 3, 4];
    assert Round(cars, [4, 3, 4]) == [CarDto("car0", 1), CarDto("car1", 0), CarDto("car2", 1)];
    var after := [CarDto("car0", 1), CarDto("car1", 0), CarDto("car2", 1)];
    assert after[1..][1..][1..] == [];
    assert MaxPosition(after) == 1;
  }
}
