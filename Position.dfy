/** domain.Position: the mutable counter a car advances. */
module Position {

  class Position {
    /** Starts at 0 and only `Increase` changes it, so it is never negative and never goes down. */
    var position: nat

    constructor()
      ensures position == 0
    {
      position := 0;
    }

    /** Adds exactly one and touches nothing else. */
    method Increase()
      modifies this
      ensures position == old(position) + 1
    {
      position := position + 1;
    }

    /** The difference of the two counters (unbounded, so the subtraction cannot overflow): its sign
        orders the positions and it is 0 exactly for equal positions. */
    function CompareTo(other: Position): (r: int)
      reads this, other
      ensures r == 0 <==> position == other.position
      ensures r > 0 <==> position > other.position
      ensures r < 0 <==> position < other.position
    {
      position - other.position
    }

    function GetPosition(): nat
      reads this
    {
      position
    }

    /** Value equality: true for the same object, false for null or an object of another class,
        otherwise true exactly when the counters agree. */
    predicate Equals(o: object?)
      reads this, o
      ensures Equals(o) <==> o is Position && (o as Position).position == position
    {
      if this == o then true
      else if o == null || !(o is Position) then false
      else position == (o as Position).position
    }

    /** Objects.hash(position): 31 * 1 + the Integer's hash, which is the value itself. */
    function HashCode(): int
      reads this
    {
      31 + position
    }
  }

  /** compareTo is antisymmetric. */
  lemma CompareToAntisymmetric(a: Position, b: Position)
    ensures a.CompareTo(b) == -b.CompareTo(a)
  {
  }

  /** compareTo agrees with equals. */
  lemma CompareToMatchesEquals(a: Position, b: Position)
    ensures a.CompareTo(b) == 0 <==> a.Equals(b)
  {
  }

  /** equals is an equivalence relation on positions and never holds for null. */
  lemma EqualsIsEquivalence(a: Position, b: Position, c: Position)
    ensures a.Equals(a)
    ensures a.Equals(b) <==> b.Equals(a)
    ensures a.Equals(b) && b.Equals(c) ==> a.Equals(c)
    ensures !a.Equals(null)
  {
  }

  /** Equal positions have equal hash codes. */
  lemma HashCodeMatchesEquals(a: Position, b: Position)
    requires a.Equals(b)
    ensures a.HashCode() == b.HashCode()
  {
  }
}
