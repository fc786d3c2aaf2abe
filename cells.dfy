/** The `ValueCell` value type of kakuro.js: the digits still possible for
    one cell of a run, held in order. */
module Cells {

  /** `arrEquals` compares the JSON texts of two integer arrays, which for
      integers is equality element by element, in order. */
  function ArrEquals(a1: seq<int>, a2: seq<int>): (r: bool)
    ensures r <==> |a1| == |a2| && forall i :: 0 <= i < |a1| ==> a1[i] == a2[i]
  {
    a1 == a2
  }

  /** A cell: its candidate values, set once at construction. */
  datatype ValueCell = ValueCell(values: seq<int>)
  {
    /** `equals`: the same cell, or one whose values are equal position by
        position. */
    function Equals(obj: ValueCell): (r: bool)
      ensures r <==> |values| == |obj.values| &&
                     forall i :: 0 <= i < |values| ==> values[i] == obj.values[i]
      ensures r <==> this == obj
    {
      if this == obj then true else ArrEquals(values, obj.values)
    }
  }

  /** `v`: always the full cell holding 1 to 9 in increasing order; the
      program calls it with arguments, which it ignores. */
  function V(): (c: ValueCell)
    ensures |c.values| == 9
    ensures forall i :: 0 <= i < |c.values| ==> c.values[i] == i + 1
    ensures forall n :: n in c.values <==> 1 <= n <= 9
  {
    ValueCell([1, 2, 3, 4, 5, 6, 7, 8, 9])
  }

  /** Every value of the cell is a digit 1 to 9. */
  predicate IsDigitCell(c: ValueCell)
  {
    forall n :: n in c.values ==> 1 <= n <= 9
  }

  /** `isPossible`: scans the cell's values and answers as soon as it meets
      `n`. */
  method IsPossible(c: ValueCell, n: int) returns (found: bool)
    ensures found <==> n in c.values
  {
    for i := 0 to |c.values|
      invariant n !in c.values[..i]
    {
      if n == c.values[i] {
        return true;
      }
    }
    return false;
  }
}
