/** The race as values: the movement rule, one round, the state after k rounds and the record that
    Field.race leaves behind. No source class corresponds to this module: it is the value form of
    Cars.play and of Field.race, runSingleAttempt and recordAttempt, which are proved against it. */
module Rounds {
  import opened LinkedMaps

  /** A draw moves a car when it is strictly above this flag (so 4..9 move and 0..3 do not). */
  const DRIVE_FLAG: int := 3

  predicate Moves(number: int)
  {
    number > DRIVE_FLAG
  }

  /** What the injected number source promises: every draw lies in [0, 9]. */
  predicate AllDigits(draws: seq<int>)
  {
    forall i :: 0 <= i < |draws| ==> 0 <= draws[i] <= 9
  }

  /** One car as the record and the winner list show it: its name and its position. */
  datatype CarDto = CarDto(name: string, position: nat)

  /** The names of the cars, in order. */
  function Names(cars: seq<CarDto>): (r: seq<string>)
    ensures |r| == |cars| && forall j :: 0 <= j < |cars| ==> r[j] == cars[j].name
  {
    seq(|cars|, j requires 0 <= j < |cars| => cars[j].name)
  }

  /** One car taking one draw. */
  function Advance(car: CarDto, number: int): CarDto
  {
    CarDto(car.name, if Moves(number) then car.position + 1 else car.position)
  }

  /** One round: car j takes draw j. */
  function Round(cars: seq<CarDto>, draws: seq<int>): (r: seq<CarDto>)
    requires |cars| <= |draws|
    ensures |r| == |cars|
  {
    seq(|cars|, j requires 0 <= j < |cars| => Advance(cars[j], draws[j]))
  }

  /** In a round every car keeps its name and place in the list and moves by exactly one when its own
      draw moves it and not at all otherwise; draws past the first |cars| are not looked at. */
  lemma RoundSpec(cars: seq<CarDto>, draws: seq<int>)
    requires |cars| <= |draws|
    ensures forall j :: 0 <= j < |cars| ==>
              && Round(cars, draws)[j].name == cars[j].name
              && Round(cars, draws)[j].position == cars[j].position + (if draws[j] > 3 then 1 else 0)
    ensures Round(cars, draws) == Round(cars, draws[..|cars|])
  {
  }

  /** How many times the loop `for (attempt = 1; attempt <= n; attempt++)` runs. */
  function AttemptsRun(numberOfAttempts: int): (k: nat)
    ensures numberOfAttempts >= 1 ==> k == numberOfAttempts
    ensures numberOfAttempts < 1 ==> k == 0
  {
    if numberOfAttempts < 1 then 0 else numberOfAttempts
  }

  /** How many draws k rounds of `cars` cars consume: `cars` per round. */
  function DrawsUsed(k: nat, cars: nat): nat
  {
    if k == 0 then 0 else DrawsUsed(k - 1, cars) + cars
  }

  /** k rounds consume k * cars draws. */
  lemma {:induction false} DrawsUsedIsProduct(k: nat, cars: nat)
    ensures DrawsUsed(k, cars) == k * cars
  {
    if k > 0 {
      DrawsUsedIsProduct(k - 1, cars);
    }
  }

  /** More rounds never consume fewer draws. */
  lemma {:induction false} DrawsUsedMonotone(k: nat, m: nat, cars: nat)
    requires k <= m
    ensures DrawsUsed(k, cars) <= DrawsUsed(m, cars)
  {
    if k < m {
      DrawsUsedMonotone(k, m - 1, cars);
    }
  }

  /** The cars after k rounds, the draws consumed round by round and, inside a round, car by car:
      round i (from 1) uses draws[DrawsUsed(i - 1) .. DrawsUsed(i)]. */
  function After(cars: seq<CarDto>, draws: seq<int>, k: nat): (r: seq<CarDto>)
    requires DrawsUsed(k, |cars|) <= |draws|
    ensures |r| == |cars|
    decreases k
  {
    if k == 0 then cars
    else
      var lo := DrawsUsed(k - 1, |cars|);
      Round(After(cars, draws, k - 1), draws[lo..lo + |cars|])
  }

  /** Round k is one round on the |cars| draws that follow the first DrawsUsed(k - 1), and the draws
      left after it are those that follow the first DrawsUsed(k). */
  lemma AfterNext(cars: seq<CarDto>, draws: seq<int>, k: nat)
    requires 1 <= k && DrawsUsed(k, |cars|) <= |draws|
    ensures DrawsUsed(k - 1, |cars|) + |cars| == DrawsUsed(k, |cars|)
    ensures After(cars, draws, k)
         == Round(After(cars, draws, k - 1), draws[DrawsUsed(k - 1, |cars|)..][..|cars|])
    ensures draws[DrawsUsed(k - 1, |cars|)..][|cars|..] == draws[DrawsUsed(k, |cars|)..]
  {
    var lo := DrawsUsed(k - 1, |cars|);
    assert draws[lo..][..|cars|] == draws[lo..lo + |cars|];
  }

  /** Round k + 1 moves car j by one exactly when draw number DrawsUsed(k) + j (that is,
      k * |cars| + j) moves it, and keeps its name. */
  lemma AfterStep(cars: seq<CarDto>, draws: seq<int>, k: nat, j: nat)
    requires DrawsUsed(k + 1, |cars|) <= |draws|
    requires j < |cars|
    ensures DrawsUsed(k, |cars|) + j < |draws|
    ensures After(cars, draws, k + 1)[j].name == After(cars, draws, k)[j].name
    ensures After(cars, draws, k + 1)[j].position
         == After(cars, draws, k)[j].position + (if Moves(draws[DrawsUsed(k, |cars|) + j]) then 1 else 0)
  {
  }

  /** Positions never go down, grow by at most one per round, and names stay where they were. */
  lemma {:induction false} AfterBounds(cars: seq<CarDto>, draws: seq<int>, k: nat, j: nat)
    requires DrawsUsed(k, |cars|) <= |draws|
    requires j < |cars|
    ensures After(cars, draws, k)[j].name == cars[j].name
    ensures cars[j].position <= After(cars, draws, k)[j].position <= cars[j].position + k
  {
    if k > 0 {
      AfterBounds(cars, draws, k - 1, j);
      AfterStep(cars, draws, k - 1, j);
    }
  }

  /** The record Field keeps: attempt number to the snapshot taken right after that attempt. */
  type Record = LinkedMap<int, seq<CarDto>>

  /** The record after attempts 1..n have each been put, starting from `record`: its keys are the old
      keys and the attempt numbers 1..n. */
  function Recorded(record: Record, cars: seq<CarDto>, draws: seq<int>, n: nat): (r: Record)
    requires DrawsUsed(n, |cars|) <= |draws|
    ensures forall k :: k in r.entries <==> k in record.entries || 1 <= k <= n
  {
    if n == 0 then record
    else
      Put(Recorded(record, cars, draws, n - 1), n, After(cars, draws, n))
  }

  /** Recording attempts keeps a well-formed record well formed. */
  lemma {:induction false} RecordedValid(record: Record, cars: seq<CarDto>, draws: seq<int>, n: nat)
    requires Valid(record)
    requires DrawsUsed(n, |cars|) <= |draws|
    ensures Valid(Recorded(record, cars, draws, n))
  {
    if n > 0 {
      RecordedValid(record, cars, draws, n - 1);
      PutValid(Recorded(record, cars, draws, n - 1), n, After(cars, draws, n));
    }
  }

  /** Attempt n puts the snapshot after round n on top of the record of attempts 1..n - 1. */
  lemma RecordedNext(record: Record, cars: seq<CarDto>, draws: seq<int>, n: nat)
    requires 1 <= n && DrawsUsed(n, |cars|) <= |draws|
    ensures DrawsUsed(n - 1, |cars|) <= |draws|
    ensures Recorded(record, cars, draws, n) == Put(Recorded(record, cars, draws, n - 1), n, After(cars, draws, n))
  {
    DrawsUsedMonotone(n - 1, n, |cars|);
  }

  /** The attempt numbers 1..n in increasing order. */
  function Span(n: nat): (r: seq<int>)
    ensures |r| == n && forall i :: 0 <= i < n ==> r[i] == i + 1
  {
    seq(n, i requires 0 <= i < n => i + 1)
  }

  /** After the race attempt k of 1..n maps to the snapshot taken right after attempt k. */
  lemma {:induction false} RecordedAt(record: Record, cars: seq<CarDto>, draws: seq<int>, n: nat, k: nat)
    requires DrawsUsed(n, |cars|) <= |draws|
    requires 1 <= k <= n
    ensures DrawsUsed(k, |cars|) <= |draws|
    ensures k in Recorded(record, cars, draws, n).entries
    ensures Recorded(record, cars, draws, n).entries[k] == After(cars, draws, k)
  {
    DrawsUsedMonotone(k, n, |cars|);
    if k < n {
      DrawsUsedMonotone(n - 1, n, |cars|);
      RecordedAt(record, cars, draws, n - 1, k);
    }
  }

  /** After the race every attempt 1..n maps to the snapshot taken right after it. */
  lemma RecordedAttempts(record: Record, cars: seq<CarDto>, draws: seq<int>, n: nat)
    requires DrawsUsed(n, |cars|) <= |draws|
    ensures forall k: nat :: 1 <= k <= n ==>
              && k in Recorded(record, cars, draws, n).entries
              && DrawsUsed(k, |cars|) <= |draws|
              && Recorded(record, cars, draws, n).entries[k] == After(cars, draws, k)
  {
    forall k: nat | 1 <= k <= n
      ensures k in Recorded(record, cars, draws, n).entries && DrawsUsed(k, |cars|) <= |draws|
      ensures Recorded(record, cars, draws, n).entries[k] == After(cars, draws, k)
    {
      RecordedAt(record, cars, draws, n, k);
    }
  }

  /** Every key outside 1..n is present after the race, with the same value, exactly when it was
      present before. */
  lemma {:induction false} RecordedOthers(record: Record, cars: seq<CarDto>, draws: seq<int>, n: nat)
    requires DrawsUsed(n, |cars|) <= |draws|
    ensures forall k :: !(1 <= k <= n) ==>
              && (k in Recorded(record, cars, draws, n).entries <==> k in record.entries)
              && (k in record.entries ==> Recorded(record, cars, draws, n).entries[k] == record.entries[k])
  {
    if n > 0 {
      RecordedOthers(record, cars, draws, n - 1);
    }
  }

  /** On a fresh record the keys are exactly 1..n, in insertion order. */
  lemma {:induction false} FreshRecordOrder(cars: seq<CarDto>, draws: seq<int>, n: nat)
    requires DrawsUsed(n, |cars|) <= |draws|
    ensures Recorded(Empty(), cars, draws, n).order == Span(n)
  {
    if n > 0 {
      RecordedNext(Empty(), cars, draws, n);
      FreshRecordOrder(cars, draws, n - 1);
      var before := Recorded(Empty(), cars, draws, n - 1);
      assert n !in before.entries;
      assert before.order + [n] == Span(n);
    }
  }

  /** A later race over attempts 1..m that the record already holds overwrites them in place: the
      key order and the key set stay as they were. */
  lemma {:induction false} RerunKeepsOrder(record: Record, cars: seq<CarDto>, draws: seq<int>, m: nat)
    requires DrawsUsed(m, |cars|) <= |draws|
    requires forall k :: 1 <= k <= m ==> k in record.entries
    ensures Recorded(record, cars, draws, m).order == record.order
    ensures Recorded(record, cars, draws, m).entries.Keys == record.entries.Keys
  {
    if m > 0 {
      RerunKeepsOrder(record, cars, draws, m - 1);
    }
  }

  /** In a fresh record, between snapshots k and k + 1 every car keeps its name and its position
      grows by exactly the one step its (k * |cars| + j)-th draw allows. */
  lemma FreshRecordSteps(cars: seq<CarDto>, draws: seq<int>, n: nat, k: nat, j: nat)
    requires DrawsUsed(n, |cars|) <= |draws|
    requires 1 <= k < n && j < |cars|
    ensures k in Recorded(Empty(), cars, draws, n).entries
    ensures k + 1 in Recorded(Empty(), cars, draws, n).entries
    ensures DrawsUsed(k, |cars|) + j < |draws|
    ensures var r := Recorded(Empty(), cars, draws, n);
            && |r.entries[k]| == |r.entries[k + 1]| == |cars|
            && r.entries[k + 1][j].name == r.entries[k][j].name == cars[j].name
            && r.entries[k + 1][j].position == r.entries[k][j].position + (if Moves(draws[DrawsUsed(k, |cars|) + j]) then 1 else 0)
  {
    RecordedAttempts(Empty(), cars, draws, n);
    DrawsUsedMonotone(k + 1, n, |cars|);
    AfterStep(cars, draws, k, j);
    AfterBounds(cars, draws, k, j);
  }
}
