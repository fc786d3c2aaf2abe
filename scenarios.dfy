/** The checks of kakuro.js's own test functions (`testPermute`,
    `testTranspose`, `testTakeWhile`, `testConcat`, `testDrop`, `testTake`,
    `testPartBy`, `testPartAll`, `testPartN`, `testSolveStep`), each proved
    about the model from the general facts of the other modules.  The runs
    are parameters constrained to the cells of the test, so that the facts
    are derived step by step. */
module Scenarios {
  import opened Lists
  import opened Cells
  import opened Kakuro

  /** Every cell of the run holds 1 to 9 in order. */
  predicate AllFull(vs: seq<ValueCell>)
  {
    forall i :: 0 <= i < |vs| ==> CountsUpFrom(vs[i].values, 1)
  }

  /** The cells holding 1 to 9 in order are exactly the full cell `v()`. */
  lemma AllFullIsV(vs: seq<ValueCell>)
    ensures AllFull(vs) <==> forall i :: 0 <= i < |vs| ==> vs[i] == V()
  {
    if AllFull(vs) {
      forall i | 0 <= i < |vs| ensures vs[i] == V() {
        assert vs[i].values == V().values;
      }
    }
  }

  /** Two full cells and total 6: the five ways to reach 6, in order. */
  lemma TwoFullCells(vs: seq<ValueCell>)
    requires |vs| == 2 && AllFull(vs)
    ensures PermuteAll(vs, 6) == [[1, 5], [2, 4], [3, 3], [4, 2], [5, 1]]
  {
    var r := PermuteAll(vs, 6);
    FullPairs(vs, 6, []);
    forall i | 0 <= i < 5 ensures r[i] == [1 + i, 5 - i] {
      assert [] + [1 + i, 5 - i] == [1 + i, 5 - i];
    }
  }

  /** Of those, `allDifferent` keeps all but `[3, 3]`. */
  lemma TwoFullCellsDifferent(vs: seq<ValueCell>)
    requires |vs| == 2 && AllFull(vs)
    ensures |Filter(p => AllDifferent(p), PermuteAll(vs, 6))| == 4
  {
    var r := PermuteAll(vs, 6);
    FullPairs(vs, 6, []);
    var p := (q: seq<int>) => AllDifferent(q);
    forall i | 0 <= i < 5 ensures p(r[i]) <==> i != 2 {
      assert r[i] == [1 + i, 5 - i];
      DistinctPair(1 + i, 5 - i);
    }
    FilterFront(p, r);
    FilterFront(p, r[1..]);
    FilterFront(p, r[2..]);
    FilterFront(p, r[3..]);
    FilterFront(p, r[4..]);
    assert r[5..] == [];
  }

  /** Three full cells and total 6: the branch of first digit `n`. */
  lemma ThreeFullBranch(vs: seq<ValueCell>, n: int)
    requires |vs| == 3 && AllFull(vs)
    requires 1 <= n <= 5
    ensures var r := Permute(vs, 6 - n, [n]);
            |r| == 5 - n && forall i :: 0 <= i < |r| ==> r[i] == [n, 1 + i, 5 - n - i]
  {
    FullPairs(vs, 6 - n, [n]);
  }

  /** The sequences of three full cells and total 6, by first digit; the
      first digit 5 leaves too little for the other two. */
  lemma ThreeFullSplit(vs: seq<ValueCell>)
    requires |vs| == 3 && AllFull(vs)
    ensures PermuteAll(vs, 6) ==
            Permute(vs, 5, [1]) + (Permute(vs, 4, [2]) + (Permute(vs, 3, [3]) + Permute(vs, 2, [4])))
  {
    var d := vs[0].values;
    var b1, b2, b3, b4 := Permute(vs, 5, [1]), Permute(vs, 4, [2]), Permute(vs, 3, [3]), Permute(vs, 2, [4]);
    assert Flatten(Branches(vs, 6, [], d[4..])) == [] by {
      var d5 := d[5..];
      assert forall i :: 0 <= i < |d5| ==> d5[i] == d[5 + i];
      BranchesBeyond(vs, 6, [], d5);
      BranchesFront(vs, 6, [], d[4..]);
      assert d[4..][0] == 5 && [] + [5] == [5] && d[4..][1..] == d5;
      ThreeFullBranch(vs, 5);
    }
    assert Flatten(Branches(vs, 6, [], d[3..])) == b4 by {
      BranchesFront(vs, 6, [], d[3..]);
      assert d[3..][0] == 4 && [] + [4] == [4] && d[3..][1..] == d[4..];
    }
    assert Flatten(Branches(vs, 6, [], d[2..])) == b3 + b4 by {
      BranchesFront(vs, 6, [], d[2..]);
      assert d[2..][0] == 3 && [] + [3] == [3] && d[2..][1..] == d[3..];
    }
    assert Flatten(Branches(vs, 6, [], d[1..])) == b2 + (b3 + b4) by {
      BranchesFront(vs, 6, [], d[1..]);
      assert d[1..][0] == 2 && [] + [2] == [2] && d[1..][1..] == d[2..];
    }
    assert Flatten(Branches(vs, 6, [], d)) == b1 + (b2 + (b3 + b4)) by {
      BranchesFront(vs, 6, [], d);
      assert d[0] == 1 && [] + [1] == [1];
    }
  }

  /** `testPermute`: three full cells and total 6 give these 10
      sequences. */
  lemma ThreeFullCells(vs: seq<ValueCell>)
    requires |vs| == 3 && AllFull(vs)
    ensures |PermuteAll(vs, 6)| == 10
    ensures PermuteAll(vs, 6) ==
            [[1, 1, 4], [1, 2, 3], [1, 3, 2], [1, 4, 1], [2, 1, 3],
             [2, 2, 2], [2, 3, 1], [3, 1, 2], [3, 2, 1], [4, 1, 1]]
  {
    ThreeFullSplit(vs);
    ThreeFullBranch(vs, 1);
    ThreeFullBranch(vs, 2);
    ThreeFullBranch(vs, 3);
    ThreeFullBranch(vs, 4);
    var b1, b2, b3, b4 := Permute(vs, 5, [1]), Permute(vs, 4, [2]), Permute(vs, 3, [3]), Permute(vs, 2, [4]);
    assert b1 == [[1, 1, 4], [1, 2, 3], [1, 3, 2], [1, 4, 1]];
    assert b2 == [[2, 1, 3], [2, 2, 2], [2, 3, 1]];
    assert b3 == [[3, 1, 2], [3, 2, 1]];
    assert b4 == [[4, 1, 1]];
  }

  /** How many sequences of the branch of first digit `n` repeat no digit:
      two for `n` from 1 to 3, none for 4. */
  lemma ThreeFullBranchDifferent(vs: seq<ValueCell>, n: int)
    requires |vs| == 3 && AllFull(vs)
    requires 1 <= n <= 4
    ensures |Filter(p => AllDifferent(p), Permute(vs, 6 - n, [n]))| == if n < 4 then 2 else 0
  {
    var r := Permute(vs, 6 - n, [n]);
    ThreeFullBranch(vs, n);
    var p := (q: seq<int>) => AllDifferent(q);
    forall k | 0 <= k < |r| ensures p(r[k]) <==> n != 1 + k && n != 5 - n - k && 1 + k != 5 - n - k {
      assert r[k] == [n, 1 + k, 5 - n - k];
      DistinctTriple(n, 1 + k, 5 - n - k);
    }
    FilterFront(p, r);
    if n < 4 {
      FilterFront(p, r[1..]);
      if n < 3 {
        FilterFront(p, r[2..]);
        if n < 2 {
          FilterFront(p, r[3..]);
        }
      }
    }
    assert r[5 - n..] == [];
  }

  /** `testPermute`: six of those ten repeat no digit. */
  lemma ThreeFullCellsDifferent(vs: seq<ValueCell>)
    requires |vs| == 3 && AllFull(vs)
    ensures |Filter(p => AllDifferent(p), PermuteAll(vs, 6))| == 6
  {
    var p := (q: seq<int>) => AllDifferent(q);
    ThreeFullSplit(vs);
    var b1, b2, b3, b4 := Permute(vs, 5, [1]), Permute(vs, 4, [2]), Permute(vs, 3, [3]), Permute(vs, 2, [4]);
    FilterAppend(p, b3, b4);
    FilterAppend(p, b2, b3 + b4);
    FilterAppend(p, b1, b2 + (b3 + b4));
    ThreeFullBranchDifferent(vs, 1);
    ThreeFullBranchDifferent(vs, 2);
    ThreeFullBranchDifferent(vs, 3);
    ThreeFullBranchDifferent(vs, 4);
  }

  /** `testPermute` on the cells it builds: `[v(), v(), v()]` and total 6
      give 10 sequences, 6 of which repeat no digit. */
  lemma TestPermute()
    ensures |PermuteAll([V(), V(), V()], 6)| == 10
    ensures |Filter(p => AllDifferent(p), PermuteAll([V(), V(), V()], 6))| == 6
  {
    var vs := [V(), V(), V()];
    AllFullIsV(vs);
    ThreeFullCells(vs);
    ThreeFullCellsDifferent(vs);
  }

  /** Two full cells and total 5: `[1, 4]` is a solution, so a sequence
      survives and `solveStep` yields two full cells. */
  lemma SolveStepFull(vs: seq<ValueCell>)
    requires |vs| == 2 && AllFull(vs)
    ensures Survivors(vs, 5) != []
    ensures SolveStep(vs, 5) == [V(), V()]
  {
    var s := [1, 4];
    assert PositiveCells(vs) by {
      forall i, n | 0 <= i < |vs| && n in vs[i].values ensures n >= 1 {
        var k :| 0 <= k < |vs[i].values| && vs[i].values[k] == n;
      }
    }
    assert Sum(s) == 5 by {
      assert s[1..] == [4] && [4][1..] == [];
    }
    assert s[0] == vs[0].values[0] && s[1] == vs[1].values[3];
    DistinctPair(1, 4);
    assert IsRunSolution(vs, 5, s);
    SurvivorsExact(vs, 5, s);
    SolveStepOutcome(vs, 5);
  }

  /** `testSolveStep` on the cells it builds, `[v(1, 2), v()]` with total 5:
      both cells of the result equal `v(1, 2)` and `v(3, 4)`, which, as `v`
      ignores its arguments, are both the full cell. */
  lemma TestSolveStep()
    ensures SolveStep([V(), V()], 5) == [V(), V()]
    ensures V().Equals(SolveStep([V(), V()], 5)[0]) && V().Equals(SolveStep([V(), V()], 5)[1])
  {
    var vs := [V(), V()];
    AllFullIsV(vs);
    SolveStepFull(vs);
  }

  /** What the regrouping computes when the first cell really holds only 1
      and 2 (next to a full cell, total 5): the kept sequences are `[1, 4]`
      and `[2, 3]`, and the candidate lists `[1, 2]` and `[4, 3]`. */
  lemma NarrowedColumns(vs: seq<ValueCell>)
    requires |vs| == 2 && vs[0].values == [1, 2] && CountsUpFrom(vs[1].values, 1)
    ensures Survivors(vs, 5) == [[1, 4], [2, 3]]
    ensures Columns(vs, 5) == [[1, 2], [4, 3]]
  {
    NarrowedSurvivors(vs);
    var m := [[1, 4], [2, 3]];
    assert Transposed(m) == [[1, 2], [4, 3]] by {
      assert Transposed(m)[0] == [1, 2] && Transposed(m)[1] == [4, 3];
    }
  }

  /** The sequences emitted for a cell holding 1 and 2 next to a full cell
      with total 5 are `[1, 4]` and `[2, 3]`. */
  lemma NarrowedPermute(vs: seq<ValueCell>)
    requires |vs| == 2 && vs[0].values == [1, 2]
    ensures PermuteAll(vs, 5) == [[1, 4], [2, 3]]
  {
    var d := vs[0].values;
    assert Flatten(Branches(vs, 5, [], d[2..])) == [] by {
      assert d[2..] == [];
    }
    assert Flatten(Branches(vs, 5, [], d[1..])) == [[2, 3]] by {
      BranchesFront(vs, 5, [], d[1..]);
      assert d[1..][0] == 2 && [] + [2] == [2] && d[1..][1..] == d[2..];
      assert Conj([2], 3) == [2, 3];
    }
    BranchesFront(vs, 5, [], d);
    assert d[0] == 1 && [] + [1] == [1];
    assert Conj([1], 4) == [1, 4];
  }

  /** Both of those survive `solveStep`'s filters. */
  lemma NarrowedSurvivors(vs: seq<ValueCell>)
    requires |vs| == 2 && vs[0].values == [1, 2] && CountsUpFrom(vs[1].values, 1)
    ensures Survivors(vs, 5) == [[1, 4], [2, 3]]
  {
    NarrowedPermute(vs);
    var all := PermuteAll(vs, 5);
    assert 4 in Last(vs).values && 3 in Last(vs).values by {
      assert vs[1].values[3] == 4 && vs[1].values[2] == 3;
    }
    var p1 := v => 1 < |v| && v[1] in Last(vs).values;
    var p2 := v => AllDifferent(v);
    assert all[1..] == [[2, 3]] && all[1..][1..] == [];
    assert Filter(p1, all) == all;
    DistinctPair(1, 4);
    DistinctPair(2, 3);
    assert Filter(p2, all) == all;
  }

  /** `testTranspose`: a 3 by 4 matrix transposes to a 4 by 3 one. */
  lemma TestTranspose()
    ensures var ints := [[1, 2, 3, 4], [1, 2, 3, 4], [1, 2, 3, 4]];
            RowsCoverFirst(ints) && |Transposed(ints)| == |ints[0]| && |Transposed(ints)[0]| == |ints|
  {
  }

  /** `testTakeWhile`: the items below 4 at the front of 0 to 9 are four. */
  lemma TestTakeWhile()
    ensures PrefixWhile(n => n < 4, [0, 1, 2, 3, 4, 5, 6, 7, 8, 9]) == [0, 1, 2, 3]
  {
    var c := [0, 1, 2, 3, 4, 5, 6, 7, 8, 9];
    var f := (n: int) => n < 4;
    var r := PrefixWhile(f, c);
    assert c[..4] == [0, 1, 2, 3];
  }

  /** `testConcat`, `testDrop` and `testTake`: concatenating lists of 3 and
      6 items gives 9; dropping or taking 4 of 6 items leaves 2 or keeps
      4. */
  lemma TestConcatDropTake()
    ensures |ConcatLists([1, 2, 3], [4, 5, 6, 1, 2, 3])| == 9
    ensures Suffix(4, [1, 2, 3, 4, 5, 6]) == [5, 6]
    ensures Prefix(4, [1, 2, 3, 4, 5, 6]) == [1, 2, 3, 4]
  {
  }

  /** The grouping key of `testPartBy`. */
  predicate IsEven(n: int)
  {
    0 == n % 2
  }

  /** The test data of `testPartBy`, `testPartAll` and `testPartN`. */
  predicate IsTestData(c: seq<int>)
  {
    c == [1, 2, 2, 2, 3, 4, 5, 5, 6, 7, 7, 8, 9]
  }

  /** The parities of the test data, item by item: odd, three evens, odd,
      even, two odds, even, two odds, even, odd. */
  predicate ParityPattern(c: seq<int>)
  {
    |c| == 13 &&
    !IsEven(c[0]) && IsEven(c[1]) && IsEven(c[2]) && IsEven(c[3]) && !IsEven(c[4]) &&
    IsEven(c[5]) && !IsEven(c[6]) && !IsEven(c[7]) && IsEven(c[8]) &&
    !IsEven(c[9]) && !IsEven(c[10]) && IsEven(c[11]) && !IsEven(c[12])
  }

  /** `testPartBy`: splitting the test data into runs of equal parity gives
      9 groups: `[1]`, `[2, 2, 2]`, `[3]`, `[4]`, `[5, 5]`, `[6]`, `[7, 7]`,
      `[8]` and `[9]`. */
  lemma TestPartBy(c: seq<int>)
    requires IsTestData(c)
    ensures |PartitionBy(IsEven, c)| == 9
  {
    assert ParityPattern(c);
    GroupOfOne(IsEven, c, 0);
    GroupOfThree(IsEven, c, 1);
    GroupOfOne(IsEven, c, 4);
    GroupOfOne(IsEven, c, 5);
    GroupOfTwo(IsEven, c, 6);
    GroupOfOne(IsEven, c, 8);
    GroupOfTwo(IsEven, c, 9);
    GroupOfOne(IsEven, c, 11);
    GroupOfOne(IsEven, c, 12);
    assert c[0..] == c;
    assert c[13..] == [];
  }

  /** `testPartAll` and `testPartN`: 13 items in chunks starting every 3
      make 5 chunks; in chunks of 5, 3 chunks. */
  lemma TestPartAllN()
    ensures |PartitionAll(5, 3, [1, 2, 2, 2, 3, 4, 5, 5, 6, 7, 7, 8, 9])| == 5
    ensures |PartitionN(5, [1, 2, 2, 2, 3, 4, 5, 5, 6, 7, 7, 8, 9])| == 3
  {
    var c := [1, 2, 2, 2, 3, 4, 5, 5, 6, 7, 7, 8, 9];
    PartitionAllCount(5, 3, c);
    PartitionAllCount(5, 5, c);
  }
}
