# Racing-car race engine, modelled in Dafny

This project models the race engine of a Java racing-car kata. Named cars gather in a registry.
Each round every car takes one number from a number source and moves one step when the number is
above 3. A record keeps a snapshot of the cars after every attempt. The winners are all cars at the
largest position, in registry order.

The repository holds two variants of the engine, and both are modelled:

- **`racingcar.domain.Cars`** (module `Cars`, class `Cars.Cars`) validates its name list. It needs
  at least two names, and no name may appear twice. It then builds one car per trimmed name, plays
  rounds, and names the winners.
- **`domain.RacingCars`** with **`domain.Field`** (modules `RacingCars` and `Field`). `RacingCars`
  splits the comma list into cars with no check at all. `Field` runs `race(n)` over those cars and keeps
  the record in a `LinkedHashMap`.
- **`domain.Position`** (module `Position`): the mutable counter behind every car.

The helper modules are:

- `Car`: a car is a fixed name plus its own `Position`.
- `JavaStrings`: `String.split(",")` and `String.trim()`.
- `LinkedMaps`: an insertion-ordered map.
- `NumberGenerator`: a number source that hands out a given sequence of draws.
- `Rounds` and `WinnerResolver`: the race as values. `CarDto` is a (name, position) snapshot.
  - `Round` is one round.
  - `After` is the cars after k rounds.
  - `Recorded` is the record after attempts 1..n.
  - `MaxPosition` and `Winners` give the result.

State is modelled as in the source:

- Positions are objects, and moving a car changes its `Position`.
- The two registries are classes whose lists hold cars.
- `Field` has a mutable `record` field.

Each state-changing method ties the new state to the value-level functions of `Rounds`. The
properties are proved as lemmas about those functions:

- one draw per car per round, taken round by round and then in list order;
- exactly n × |cars| draws for `race(n)`;
- record keys 1..n in insertion order;
- positions that grow by 0 or 1 per round;
- winners that are exactly the cars at the maximum, in list order.

Three behaviours of the code are worth noting:

- `Cars` checks duplicates on the raw tokens, before `trim`. So `"pobi, pobi"`, which splits into `"pobi"` and
  `" pobi"`, is accepted, and it yields two cars called `pobi` (`Cars.DuplicateAfterTrimPasses`).
- `Field.race(n)` with n ≤ 0 runs nothing and raises no error.
- No name-length or empty-name rule is modelled. `RacingCars` performs none. The validators that
  would are not part of this model.

## Model

| member | source | states |
|---|---|---|
| `Position.Position.constructor` | src/main/java/domain/Position.java:7 | A new counter holds 0. |
| `Position.Position.Increase` | src/main/java/domain/Position.java:9-11 | The counter grows by exactly one, and nothing else changes. It is the only mutator, and the counter is a `nat`, so it never goes negative or down. |
| `Position.Position.CompareTo` | src/main/java/domain/Position.java:13-15 | The sign of the result orders the two positions. It is 0 exactly when they are equal. |
| `Position.Position.GetPosition` | src/main/java/domain/Position.java:17-19 | Reads the counter. It has no contract of its own; it is a `nat`, so what it returns is never negative. |
| `Position.Position.Equals` | src/main/java/domain/Position.java:21-27 | True exactly when the other object is a `Position` with the same value. It is false for null and for any object of another class. |
| `Position.Position.HashCode` | src/main/java/domain/Position.java:29-32 | `Objects.hash(position)` for one `Integer`, that is `31 + position`. It has no contract of its own; `HashCodeMatchesEquals` proves that equal positions hash equally. |
| `Position.CompareToAntisymmetric` | src/main/java/domain/Position.java:13-15 | `a.compareTo(b) == -b.compareTo(a)`. |
| `Position.CompareToMatchesEquals` | src/main/java/domain/Position.java:13-27 | `compareTo` is 0 exactly when `equals` holds. |
| `Position.EqualsIsEquivalence` | src/main/java/domain/Position.java:21-27 | `equals` is reflexive, symmetric and transitive, and never holds for null. |
| `Position.HashCodeMatchesEquals` | src/main/java/domain/Position.java:29-32 | Equal positions have equal hash codes. |
| `Car.Car.constructor` | src/main/java/domain/RacingCars.java:16 | A new car has the given name and its own fresh counter at 0. |
| `Car.Car.Drive` | src/main/java/racingcar/domain/Cars.java:32 | The car moves one step exactly when the flag holds. |
| `Car.Car.Execute` | src/main/java/domain/Field.java:32 | The car moves one step exactly when the draw is above 3. |
| `Car.Car.CompareTo` | src/main/java/racingcar/domain/Cars.java:74 | Cars are ordered by position alone: the result is 0 or positive exactly when the positions are equal or greater. |
| `Car.Car.IsSamePosition` | src/main/java/racingcar/domain/Cars.java:80 | Two cars tie exactly when their positions are equal. |
| `Car.Car.IsAtPosition` | src/main/java/domain/RacingCars.java:27 | `isSamePosition(int)`: the car stands at the given position. It has no contract of its own, as it only reads the counter. |
| `Car.Car.ToDto` | src/main/java/domain/Field.java:37 | One car as `DtoMapper.convert` shows it: its name and current position. It has no contract of its own. |
| `Car.Snapshot` | src/main/java/domain/Field.java:37 | `DtoMapper.convert`: one (name, position) entry per car. `SnapshotElements` says what entry j is. |
| `Car.SnapshotElements` | src/main/java/domain/Field.java:37 | Entry j of a snapshot is car j's name and current position. |
| `Car.MaxPositionOfCars` | src/main/java/domain/RacingCars.java:31-36 | The snapshot's maximum bounds every car, and a non-empty list has a car at it. |
| `Car.CarsAt` | src/main/java/domain/RacingCars.java:24-29 | The filter keeps exactly the cars at position p. Their snapshot is the filtered snapshot. `CarsAtSelects` pins down the order of the car objects themselves. |
| `Car.CarsAtSelects` | src/main/java/domain/RacingCars.java:24-29 | The filter picks the car objects at position p by strictly increasing index, and every index of a car at p is picked. So each such car appears once, in list order, even when two cars share a name and a position. |
| `Car.SelectsAtUnique` | src/main/java/domain/RacingCars.java:24-29 | Only one list is such a selection, so the filter's result is fully determined, car objects and order included. |
| `JavaStrings.Pieces` | src/main/java/domain/RacingCars.java:15 | There is at least one piece, and no piece contains the delimiter. |
| `JavaStrings.JoinPieces` | src/main/java/domain/RacingCars.java:15 | Joining the pieces with the delimiter gives back the input. |
| `JavaStrings.PiecesJoin` | src/main/java/domain/RacingCars.java:15 | Cutting a join of delimiter-free pieces gives back the same pieces. |
| `JavaStrings.DropTrailingEmpty` | src/main/java/racingcar/domain/Cars.java:20 | The result is a prefix of the pieces, it ends in a non-empty piece, and it drops only empty pieces. |
| `JavaStrings.Split` | src/main/java/racingcar/domain/Cars.java:20 | `split(",")` gives delimiter-free tokens and drops only trailing empty pieces. The last token is non-empty when a delimiter occurs. The whole string comes back when there is no delimiter. |
| `JavaStrings.SplitOfEmptyAndDelimiter` | src/main/java/domain/RacingCars.java:15 | `""` splits to `[""]`, and `","` splits to no token at all. |
| `JavaStrings.SplitJoin` | src/main/java/domain/RacingCars.java:15 | Splitting a join of two or more tokens gives back the tokens without the trailing empty ones. A single token comes back whole. |
| `JavaStrings.SplitTrailingDelimiter` | src/main/java/racingcar/domain/Cars.java:20 | `"pobi,woni,"` splits to `["pobi", "woni"]`. |
| `JavaStrings.SplitKeepsBlanks` | src/main/java/racingcar/domain/Cars.java:20 | `"pobi, pobi"` splits into `"pobi"` and `" pobi"`: `split` does not trim. |
| `JavaStrings.TrimStartSpec` | src/main/java/racingcar/domain/Cars.java:61 | The result is a suffix of the input. Everything cut off is a character up to U+0020, and the result does not start with one. |
| `JavaStrings.TrimEndSpec` | src/main/java/racingcar/domain/Cars.java:61 | The result is a prefix of the input. Everything cut off is a character up to U+0020, and the result does not end with one. |
| `JavaStrings.TrimSlice` | src/main/java/racingcar/domain/Cars.java:61 | `trim()` keeps a contiguous slice of the input, and everything it cuts off is trimmable. |
| `JavaStrings.Trim` | src/main/java/racingcar/domain/Cars.java:61 | What `trim()` leaves neither starts nor ends with a trimmable character. |
| `JavaStrings.TrimLeadingBlank` | src/main/java/racingcar/domain/Cars.java:61 | `" pobi"` and `"pobi"` both trim to `"pobi"`. |
| `JavaStrings.TrimIdempotent` | src/main/java/racingcar/domain/Cars.java:61 | Trimming twice is trimming once. |
| `LinkedMaps.Empty` | src/main/java/domain/Field.java:18 | A new map is well formed and has no keys. |
| `LinkedMaps.Put` | src/main/java/domain/Field.java:37 | A new key goes to the end of the key order, and an existing key keeps its place. Only that key's value changes. |
| `LinkedMaps.PutValid` | src/main/java/domain/Field.java:37 | `put` keeps every key exactly once in the order, and the order lists exactly the keys. |
| `NumberGenerator.NumberGenerator.constructor` | src/test/java/domain/CarsTest.java:60-67 | The source starts with the given draws, all in [0, 9]. |
| `NumberGenerator.NumberGenerator.GetNumber` | src/test/java/domain/CarsTest.java:69-74 | It returns the next pending draw, which lies in [0, 9], and removes it. |
| `Rounds.Names` | src/main/java/racingcar/domain/Cars.java:81 | One name per car, in list order. |
| `Rounds.Round` | src/main/java/racingcar/domain/Cars.java:30-33 | One round gives one snapshot entry per car. |
| `Rounds.RoundSpec` | src/main/java/racingcar/domain/Cars.java:64-66 | In a round, car j keeps its name and moves one step exactly when draw j is above 3. Only the first \|cars\| draws matter. |
| `Rounds.AttemptsRun` | src/main/java/domain/Field.java:23 | The loop runs n attempts for n ≥ 1, and none otherwise. |
| `Rounds.DrawsUsedIsProduct` | src/main/java/domain/Field.java:23-33 | Attempts 1..k take exactly k × \|cars\| draws. |
| `Rounds.DrawsUsedMonotone` | src/main/java/domain/Field.java:23-33 | More attempts never take fewer draws. |
| `Rounds.After` | src/main/java/domain/Field.java:23-24 | The cars after k attempts: one entry per car. |
| `Rounds.AfterNext` | src/main/java/domain/Field.java:23-24 | Attempt k is one round on the \|cars\| draws that follow those of attempts 1..k-1. The draws it leaves are those after attempts 1..k. |
| `Rounds.AfterStep` | src/main/java/domain/Field.java:29-33 | In attempt k+1, car j moves exactly when draw k × \|cars\| + j is above 3, and its name stays. |
| `Rounds.AfterBounds` | src/main/java/domain/Field.java:23-33 | After k attempts, a car's name is unchanged. Its position lies between its start and its start plus k. |
| `Rounds.Recorded` | src/main/java/domain/Field.java:23-26 | After attempts 1..n are put, the record's keys are exactly the old keys and the attempt numbers 1..n. |
| `Rounds.RecordedValid` | src/main/java/domain/Field.java:36-38 | Recording attempts keeps the record a well-formed ordered map. |
| `Rounds.RecordedNext` | src/main/java/domain/Field.java:25 | Attempt n puts the snapshot after round n under key n, on top of the record of attempts 1..n-1. |
| `Rounds.RecordedAt` | src/main/java/domain/Field.java:25 | After the race, key k of 1..n holds the snapshot taken right after attempt k. |
| `Rounds.RecordedAttempts` | src/main/java/domain/Field.java:23-26 | After the race, every attempt 1..n is a key holding the snapshot taken right after it. |
| `Rounds.RecordedOthers` | src/main/java/domain/Field.java:37 | Keys outside 1..n are present, with the same value, exactly when they were present before. |
| `Rounds.FreshRecordOrder` | src/main/java/domain/Field.java:18 | On a new record, the key order after race(n) is exactly 1, 2, ..., n. |
| `Rounds.RerunKeepsOrder` | src/main/java/domain/Field.java:37 | A second race over keys the record already holds overwrites them in place: key order and key set are unchanged. |
| `Rounds.FreshRecordSteps` | src/main/java/domain/Field.java:29-34 | Between snapshots k and k+1 every car keeps its name. Its position grows by exactly the step its draw allows, so it is never smaller. |
| `WinnerResolver.MaxPosition` | src/main/java/domain/RacingCars.java:31-36 | It bounds every position, is 0 for no cars, and is some car's position otherwise. |
| `WinnerResolver.AtPosition` | src/main/java/domain/RacingCars.java:24-29 | The filter on snapshots. It has no contract of its own; `AtPositionMembers` and `AtPositionAppend` state which entries it keeps and that it keeps their order. |
| `WinnerResolver.AtPositionMembers` | src/main/java/domain/RacingCars.java:24-29 | A car is kept by the filter exactly when it is in the list at position p. |
| `WinnerResolver.AtPositionAppend` | src/main/java/domain/RacingCars.java:24-29 | The filter distributes over concatenation, so it keeps list order. |
| `WinnerResolver.Winners` | src/main/java/domain/RacingCars.java:24-36 | A car is a winner exactly when it is at the maximum, and no car is ahead of a winner. There is a winner exactly when there is a car. |
| `WinnerResolver.WinnersKeepTies` | src/main/java/domain/RacingCars.java:24-29 | Cars at 2, 1 and 2 give the first and third as winners, in that order. |
| `WinnerResolver.OneRoundExample` | src/test/java/domain/CarsTest.java:20-46 | Draws 4, 3, 4 move the first and third car, and those two are the winners. |
| `Cars.IsCars` | src/main/java/racingcar/domain/Cars.java:51-53 | There are at least `CAR_LIMIT` = 2 names. It has no contract of its own; `CheckValid` states its effect. |
| `Cars.NameSetSize` | src/main/java/racingcar/domain/Cars.java:55-58 | The set of names is never larger than the list. It has the same size exactly when no name repeats. |
| `Cars.IsDuplicated` | src/main/java/racingcar/domain/Cars.java:55-58 | The `HashSet` of the names is smaller than the list exactly when two entries are the same string. |
| `Cars.CheckValid` | src/main/java/racingcar/domain/Cars.java:42-49 | Fewer than two names fails first. Otherwise a repeated raw name fails. Otherwise the list passes. |
| `Cars.DuplicateAfterTrimPasses` | src/main/java/racingcar/domain/Cars.java:19-28 | `"pobi, pobi"` splits into `["pobi", " pobi"]`, which passes the check, and both names trim to `"pobi"`. |
| `Cars.RejectedNameLists` | src/main/java/racingcar/domain/Cars.java:19-24 | `"pobi,woni,pobi"` is rejected as duplicated, and `"pobi"` alone is rejected as too few cars. |
| `Cars.MaxIndex` | src/main/java/racingcar/domain/Cars.java:72-76 | `max(Car::compareTo)` picks a car no other car is ahead of, and no earlier car is level with it. |
| `Cars.LeaderAtMaxPosition` | src/main/java/racingcar/domain/Cars.java:37-40 | A car no other car is ahead of stands at the snapshot's maximum. |
| `Cars.Cars.FromChecked` | src/main/java/racingcar/domain/Cars.java:23-28 | After a passing check there are at least two cars, one per name in name order. Each has the trimmed name, position 0 and its own new counter. |
| `Cars.Cars.BuildCars` | src/main/java/racingcar/domain/Cars.java:25-27 | The loop adds `createCar(name)` for every name, in order, each with a counter of its own. |
| `Cars.Cars.CreateCar` | src/main/java/racingcar/domain/Cars.java:60-62 | A new car under the trimmed name, at position 0. |
| `Cars.Cars.Create` | src/main/java/racingcar/domain/Cars.java:23-28 | It fails with the check's error exactly when the check fails, and then no registry exists. Otherwise the registry holds one trimmed car per name, in order, at 0. |
| `Cars.Cars.FromString` | src/main/java/racingcar/domain/Cars.java:19-21 | The same result, on the tokens of `split(",")`. |
| `Cars.Cars.HasNext` | src/main/java/racingcar/domain/Cars.java:64-66 | It takes exactly one draw and says whether it is above 3. |
| `Cars.Cars.Play` | src/main/java/racingcar/domain/Cars.java:30-35 | Every car takes the next draw in list order and moves the one step `RoundSpec` allows. Exactly \|cars\| draws are used. The list (membership and order) is unchanged. |
| `Cars.Cars.FindMaxPositionCar` | src/main/java/racingcar/domain/Cars.java:72-76 | A car of the list no car is ahead of. There is none (the `NoSuchElementException`) exactly when the list is empty. |
| `Cars.Cars.FindSamePositionCar` | src/main/java/racingcar/domain/Cars.java:78-83 | The names, in list order, of the cars at the target's position. |
| `Cars.Cars.FindWinners` | src/main/java/racingcar/domain/Cars.java:37-40 | The names of exactly the cars at the maximum, in list order. It fails only on an empty list, so a registry of at least two cars always has a non-empty result. |
| `RacingCars.RacingCars.constructor` | src/main/java/domain/RacingCars.java:10-12 | One car per token of `split(",")`, in order, named by the raw token, at 0, and no check is made. |
| `RacingCars.RacingCars.GenerateCars` | src/main/java/domain/RacingCars.java:14-18 | `new Car(token)` for each token, in order, each with a counter of its own. |
| `RacingCars.RacingCars.GetAllCars` | src/main/java/domain/RacingCars.java:20-22 | It returns the registry's own list of cars, not a copy. |
| `RacingCars.RacingCars.GetMaxPosition` | src/main/java/domain/RacingCars.java:31-36 | The largest car position: it bounds every car, some car has it, and it is 0 for an empty list. |
| `RacingCars.RacingCars.GetWinners` | src/main/java/domain/RacingCars.java:24-29 | Exactly the car objects at the maximum, each once, picked by increasing index, so in list order. On a non-empty list it is non-empty, and every winner is level with or ahead of every car. |
| `Field.Field.constructor` | src/main/java/domain/Field.java:15-19 | A field starts with an empty record over the given registry and number source. |
| `Field.Field.Race` | src/main/java/domain/Field.java:21-27 | After race(n), the cars are the start after AttemptsRun(n) rounds of draws, round by round and then in car order. Exactly that many rounds of \|cars\| draws are taken. The record is the old record with attempts 1..n put in order. |
| `Field.Field.RunSingleAttempt` | src/main/java/domain/Field.java:29-34 | Every car, in list order, executes the next draw. That is one `Round` on the next \|cars\| draws. |
| `Field.Field.RecordAttempt` | src/main/java/domain/Field.java:36-38 | It puts the current snapshot under the attempt number and moves no car. |
| `Field.Field.GetRacingRecord` | src/main/java/domain/Field.java:40-42 | It returns the record itself. |
| `Field.Field.GetWinners` | src/main/java/domain/Field.java:44-46 | The snapshots of the winners of the current cars, in registry order. |
| `Field.RunRace` | src/main/java/domain/Field.java:15-46 | Build the cars from the comma list, race n attempts on the given draws, then read the record and the winners. Both are fixed by the names, the draws and n alone, and the record's keys are 1..n in order. |

## Left out

- Console input and output are left out: `RaceManager`, `InputView`, `InputViewForRetry`, `OutputView`, and `Output.roundResult(cars)` at the end of `Cars.play`. They are presentation and retry plumbing.
- `Math.random()` in `Cars.generate` is replaced by an injected finite sequence of draws in [0, 9]. Callers must supply enough draws: |cars| for `Play`, and AttemptsRun(n) × |cars| for `Race`. The source's infinite random supply has no such bound.
- Java `int` overflow in `position++`, in the subtraction of `compareTo`, and in the attempt counter is not modelled. Positions are unbounded naturals.
- Position.Position.HashCode is `31 + position`, the value `Objects.hash` gives for one `Integer`, without 32-bit wrap-around. Only "equal positions hash equally" is proved about it.
- The source of the `Car`, `Name`, `CarDto`, `DtoMapper` and `NumberGenerator` classes is not among the modelled files, so they are modelled abstractly. The `Car` module gives a car as a name plus its own `Position`. `CarDto` is a (name, position) pair and `Snapshot` plays `DtoMapper.convert`. The `NumberGenerator` module is a class handing out a given sequence. `Name` is a plain string.
- Thrown exceptions become values. The constructor of `Cars` becomes `Cars.Cars.Create`, which returns a `Result` whose error is `TooFewCars` or `DuplicatedNames`. `findMaxPositionCar` returns `None` where it would throw `NoSuchElementException`.
- `Field.getWinners` calls `racingCars.getMaxPositionCars()`, which the `RacingCars` class does not declare. The model takes it to be `RacingCars.getWinners`.
- RacingCars.RacingCars.GenerateCars is a stream pipeline in the source. In the model it is a loop, because allocating the cars needs a method.
- Java strings are UTF-16 code units and Dafny strings are sequences of characters. `trim()` is modelled on characters up to U+0020, which is the same rule.
- No name-length, empty-name or attempt-count validation appears in any of the modelled files, so none is modelled.
- Field.Field.GetRacingRecord returns the record as a value. The source returns the live `LinkedHashMap`, which a caller could change, and then the field's record would change with it. The model does not capture that aliasing; no modelled caller changes the returned map.
