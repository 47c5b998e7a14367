/** One square of a grid: its remaining possible values, changed in place. */
module Squares {
  import opened Candidates
  import opened Options

  class Square {
    var possibilities: set<Value>

    constructor (maximum: nat)
      requires 1 <= maximum
      ensures possibilities == UpTo(maximum)
    {
      possibilities := UpTo(maximum);
    }

    constructor Copy(other: Square)
      ensures possibilities == other.possibilities
    {
      possibilities := other.possibilities;
    }

    method RemovePossibility(possibility: Value) returns (existed: bool)
      modifies this
      ensures existed == (possibility in old(possibilities))
      ensures possibilities == old(possibilities) - {possibility}
    {
      if HasPossibility(possibility) {
        possibilities := possibilities - {possibility};
        existed := true;
      } else {
        existed := false;
      }
    }

    predicate IsPossible()
      reads this
    {
      |possibilities| != 0
    }

    /** The value of the square if it has only a single possibility. */
    function GetValue(): (r: Option<Value>)
      reads this
      ensures forall v :: r == Some(v) <==> possibilities == {v}
    {
      if |possibilities| == 1 then Some(Only(possibilities)) else None
    }

    method SetValue(value: Value)
      modifies this
      ensures possibilities == {value}
    {
      possibilities := {value};
    }

    function GetPossibilities(): (r: seq<Value>)
      reads this
      ensures forall v :: v in r <==> v in possibilities
      ensures StrictlyAscending(r)
    {
      Ascending(possibilities)
    }

    predicate HasPossibility(value: Value)
      reads this
    {
      value in possibilities
    }
  }
}
