/** The injected source of draws that replaces the random number generator: it hands out a
    given sequence of numbers, one per call, in order. */
module NumberGenerator {
  import opened Rounds

  class NumberGenerator {
    /** The draws not yet handed out. */
    var pending: seq<int>

    /** Every draw the source can still give lies in [0, 9], as (int)(Math.random() * 100) % 10 does. */
    ghost predicate Valid()
      reads this
    {
      AllDigits(pending)
    }

    constructor(values: seq<int>)
      requires AllDigits(values)
      ensures Valid() && pending == values
    {
      pending := values;
    }

    /** Hands out the next draw. */
    method GetNumber() returns (number: int)
      requires Valid() && pending != []
      modifies this
      ensures Valid()
      ensures number == old(pending)[0] && pending == old(pending)[1..]
      ensures 0 <= number <= 9
    {
      number := pending[0];
      pending := pending[1..];
    }
  }
}
