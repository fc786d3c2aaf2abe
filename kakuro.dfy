/** The run solver of kakuro.js: `permute`/`permuteAll` enumerate the digit
    sequences of a run that reach its total, and `solveStep` keeps those
    whose last digit the last cell allows and that repeat no digit, then
    regroups them by position. */
module Kakuro {
  import opened Lists
  import opened Cells

  /** The sum of a sequence of digits. */
  function Sum(s: seq<int>): int
  {
    if s == [] then 0 else s[0] + Sum(s[1..])
  }

  /** Sum distributes over concatenation. */
  lemma {:induction false} SumAppend(a: seq<int>, b: seq<int>)
    ensures Sum(a + b) == Sum(a) + Sum(b)
  {
    if a == [] {
      assert a + b == b;
    } else {
      assert (a + b)[1..] == a[1..] + b;
      SumAppend(a[1..], b);
    }
  }

  /** The sum of a slice is its first element plus the sum of the rest. */
  lemma SumFront(r: seq<int>, p: nat, k: nat)
    requires p < k <= |r|
    ensures Sum(r[p..k]) == r[p] + Sum(r[p + 1..k])
  {
    var s := r[p..k];
    assert s[0] == r[p];
    assert s[1..] == r[p + 1..k];
  }

  /** `permute`: extends the partial sequence `soFar` with one value of
      each following cell, `target` being what is left to reach; the last
      position gets whatever is left.  A branch ends as soon as less than 1
      is left. */
  function Permute(vs: seq<ValueCell>, target: int, soFar: seq<int>): seq<seq<int>>
    requires target >= 1 ==> |soFar| < |vs|
    decreases |vs| - |soFar|, 1
  {
    if target >= 1 then
      if |soFar| == |vs| - 1 then
        [Conj(soFar, target)]
      else
        Flatten(Branches(vs, target, soFar, vs[|soFar|].values))
    else
      []
  }

  /** `values.map(n => permute(vs, target - n, conj(soFar, n)))`: one
      branch per value of the next cell, in order. */
  function Branches(vs: seq<ValueCell>, target: int, soFar: seq<int>, values: seq<int>): (r: seq<seq<seq<int>>>)
    requires |soFar| < |vs| - 1
    ensures |r| == |values|
    decreases |vs| - |soFar|, 0, |values|
  {
    if values == [] then []
    else [Permute(vs, target - values[0], Conj(soFar, values[0]))] + Branches(vs, target, soFar, values[1..])
  }

  /** Branch `i` is `permute` continued with value `i` of the next cell. */
  lemma {:induction false} BranchAt(vs: seq<ValueCell>, target: int, soFar: seq<int>, values: seq<int>, i: nat)
    requires |soFar| < |vs| - 1 && i < |values|
    ensures Branches(vs, target, soFar, values)[i] == Permute(vs, target - values[i], soFar + [values[i]])
    decreases i
  {
    if i > 0 {
      BranchAt(vs, target, soFar, values[1..], i - 1);
    }
  }

  /** `r` is a sequence that `permute` emits when started from `soFar` with
      `target` left: it extends `soFar` to the full run, its remaining
      positions add up to `target`, every remaining position but the last
      holds a value of its cell, and before each remaining position at
      least 1 is still left. */
  predicate Completes(vs: seq<ValueCell>, target: int, soFar: seq<int>, r: seq<int>)
  {
    var p := |soFar|;
    && p < |vs|
    && |r| == |vs|
    && r[..p] == soFar
    && Sum(r[p..]) == target
    && (forall i :: p <= i < |vs| - 1 ==> r[i] in vs[i].values)
    && (forall k :: p <= k < |vs| ==> target - Sum(r[p..k]) >= 1)
  }

  /** `permute` emits exactly the sequences that complete its partial
      sequence. */
  lemma {:induction false} PermuteMembers(vs: seq<ValueCell>, target: int, soFar: seq<int>, r: seq<int>)
    requires |soFar| < |vs|
    ensures r in Permute(vs, target, soFar) <==> Completes(vs, target, soFar, r)
    decreases |vs| - |soFar|, 1
  {
    if target < 1 {
      NothingLeft(vs, target, soFar, r);
    } else if |soFar| == |vs| - 1 {
      LastPosition(vs, target, soFar, r);
    } else {
      PermuteStep(vs, target, soFar, r);
      if r in Permute(vs, target, soFar) {
        EmittedCompletes(vs, target, soFar, r);
      }
      if Completes(vs, target, soFar, r) {
        CompletesEmitted(vs, target, soFar, r);
      }
    }
  }

  /** Induction step, one way: what a branch emits completes `soFar`. */
  lemma {:induction false} EmittedCompletes(vs: seq<ValueCell>, target: int, soFar: seq<int>, r: seq<int>)
    requires target >= 1 && |soFar| < |vs| - 1
    requires exists i :: 0 <= i < |vs[|soFar|].values| &&
               r in Permute(vs, target - vs[|soFar|].values[i], soFar + [vs[|soFar|].values[i]])
    ensures Completes(vs, target, soFar, r)
    decreases |vs| - |soFar|, 0
  {
    var values := vs[|soFar|].values;
    var i :| 0 <= i < |values| && r in Permute(vs, target - values[i], soFar + [values[i]]);
    var n := values[i];
    PermuteMembers(vs, target - n, soFar + [n], r);
    ChildCompletes(vs, target, soFar, n, r);
  }

  /** Induction step, other way: a completion of `soFar` is emitted by the
      branch of its next digit. */
  lemma {:induction false} CompletesEmitted(vs: seq<ValueCell>, target: int, soFar: seq<int>, r: seq<int>)
    requires target >= 1 && |soFar| < |vs| - 1
    requires Completes(vs, target, soFar, r)
    ensures exists i :: 0 <= i < |vs[|soFar|].values| &&
              r in Permute(vs, target - vs[|soFar|].values[i], soFar + [vs[|soFar|].values[i]])
    decreases |vs| - |soFar|, 0
  {
    var values := vs[|soFar|].values;
    var n := r[|soFar|];
    var i :| 0 <= i < |values| && values[i] == n;
    ParentCompletes(vs, target, soFar, r);
    PermuteMembers(vs, target - n, soFar + [n], r);
  }

  /** Before the last position, `permute` emits what the branches for the
      values of the next cell emit. */
  lemma PermuteStep(vs: seq<ValueCell>, target: int, soFar: seq<int>, r: seq<int>)
    requires target >= 1 && |soFar| < |vs| - 1
    ensures r in Permute(vs, target, soFar) <==>
              exists i :: 0 <= i < |vs[|soFar|].values| &&
                r in Permute(vs, target - vs[|soFar|].values[i], soFar + [vs[|soFar|].values[i]])
  {
    var values := vs[|soFar|].values;
    var parts := Branches(vs, target, soFar, values);
    FlattenMembers(parts, r);
    forall i | 0 <= i < |values|
      ensures parts[i] == Permute(vs, target - values[i], soFar + [values[i]])
    {
      BranchAt(vs, target, soFar, values, i);
    }
  }

  /** With less than 1 left, no sequence completes `soFar`. */
  lemma NothingLeft(vs: seq<ValueCell>, target: int, soFar: seq<int>, r: seq<int>)
    requires target < 1
    ensures !Completes(vs, target, soFar, r)
  {
    var p := |soFar|;
    if p <= |r| {
      assert r[p..p] == [];
    }
  }

  /** At the last position the only completion is the one whose last digit
      is what is left. */
  lemma LastPosition(vs: seq<ValueCell>, target: int, soFar: seq<int>, r: seq<int>)
    requires target >= 1 && |soFar| == |vs| - 1
    ensures r in Permute(vs, target, soFar) <==> Completes(vs, target, soFar, r)
  {
    var p := |soFar|;
    assert Permute(vs, target, soFar) == [soFar + [target]];
    if r == soFar + [target] {
      assert r[..p] == soFar;
      assert r[p..] == [target];
      assert Sum([target]) == target;
      assert r[p..p] == [];
      assert Completes(vs, target, soFar, r);
    }
    if Completes(vs, target, soFar, r) {
      assert r[p..] == [r[p]];
      assert Sum([r[p]]) == r[p];
      assert r[p] == target;
      assert r == r[..p] + r[p..];
      assert r == soFar + [target];
    }
  }

  /** A sequence completing `soFar + [n]` with `target - n` left, where `n`
      is a value of the next cell, completes `soFar` with `target` left. */
  lemma ChildCompletes(vs: seq<ValueCell>, target: int, soFar: seq<int>, n: int, r: seq<int>)
    requires target >= 1 && |soFar| < |vs| - 1
    requires n in vs[|soFar|].values
    requires Completes(vs, target - n, soFar + [n], r)
    ensures Completes(vs, target, soFar, r)
  {
    var p := |soFar|;
    assert r[..p + 1][..p] == r[..p];
    assert r[p] == r[..p + 1][p] == n;
    SumFront(r, p, |r|);
    assert r[p..] == r[p..|r|] && r[p + 1..] == r[p + 1..|r|];
    forall k | p <= k < |vs| ensures target - Sum(r[p..k]) >= 1 {
      if k > p {
        SumFront(r, p, k);
      } else {
        assert r[p..k] == [];
      }
    }
  }

  /** A sequence completing `soFar` with `target` left also completes the
      one-longer partial sequence it extends. */
  lemma ParentCompletes(vs: seq<ValueCell>, target: int, soFar: seq<int>, r: seq<int>)
    requires |soFar| < |vs| - 1
    requires Completes(vs, target, soFar, r)
    ensures Completes(vs, target - r[|soFar|], soFar + [r[|soFar|]], r)
  {
    var p := |soFar|;
    var n := r[p];
    assert r[..p + 1] == r[..p] + [n];
    SumFront(r, p, |r|);
    assert r[p..] == r[p..|r|] && r[p + 1..] == r[p + 1..|r|];
    var q := p + 1;
    forall k | q <= k < |vs| ensures target - n - Sum(r[q..k]) >= 1 {
      SumFront(r, p, k);
    }
  }

  /** `permuteAll`: `permute` from the empty sequence. */
  function PermuteAll(vs: seq<ValueCell>, target: int): seq<seq<int>>
    requires |vs| >= 1 || target < 1
  {
    Permute(vs, target, [])
  }

  /** A sequence that `permuteAll` emits: as long as the run, adding up to
      `target`, holding a value of its cell at every position but the last,
      and with at least 1 still left before each position. */
  predicate Emitted(vs: seq<ValueCell>, target: int, r: seq<int>)
  {
    && |r| == |vs|
    && Sum(r) == target
    && (forall i :: 0 <= i < |vs| - 1 ==> r[i] in vs[i].values)
    && (forall k :: 0 <= k < |vs| ==> target - Sum(r[..k]) >= 1)
  }

  /** `permuteAll` emits exactly the sequences described by `Emitted`. */
  lemma PermuteAllMembers(vs: seq<ValueCell>, target: int, r: seq<int>)
    requires |vs| >= 1
    ensures r in PermuteAll(vs, target) <==> Emitted(vs, target, r)
  {
    PermuteMembers(vs, target, [], r);
    assert r[0..] == r;
    assert forall k :: 0 <= k <= |r| ==> r[0..k] == r[..k];
  }

  /** Every sequence of `permuteAll` has one digit per cell, adds up to the
      target, draws every digit but the last from its cell, and ends in a
      digit of at least 1. */
  lemma PermuteAllSound(vs: seq<ValueCell>, target: int, r: seq<int>)
    requires |vs| >= 1
    requires r in PermuteAll(vs, target)
    ensures |r| == |vs| && Sum(r) == target
    ensures forall i :: 0 <= i < |vs| - 1 ==> r[i] in vs[i].values
    ensures r[|vs| - 1] >= 1
  {
    PermuteAllMembers(vs, target, r);
    var n := |vs|;
    assert r == r[..n - 1] + [r[n - 1]];
    SumAppend(r[..n - 1], [r[n - 1]]);
    assert Sum([r[n - 1]]) == r[n - 1];
  }

  /** `permute` gives up when less than 1 is left. */
  lemma PermuteNoTarget(vs: seq<ValueCell>, target: int, soFar: seq<int>)
    requires target < 1
    ensures Permute(vs, target, soFar) == []
  {
  }

  /** For a single cell, `permuteAll` yields just the target, whatever the
      cell holds, once the target is at least 1. */
  lemma PermuteAllSingle(c: ValueCell, target: int)
    ensures PermuteAll([c], target) == if target >= 1 then [[target]] else []
  {
  }

  /** `values` holds the consecutive integers from `lo` to 9. */
  predicate CountsUpFrom(values: seq<int>, lo: int)
  {
    |values| == 10 - lo && forall i :: 0 <= i < |values| ==> values[i] == lo + i
  }

  /** Splitting off the branch of the first value. */
  lemma BranchesFront(vs: seq<ValueCell>, t: int, soFar: seq<int>, values: seq<int>)
    requires |soFar| < |vs| - 1 && values != []
    ensures Flatten(Branches(vs, t, soFar, values)) ==
            Permute(vs, t - values[0], soFar + [values[0]]) + Flatten(Branches(vs, t, soFar, values[1..]))
  {
    FlattenCons(Permute(vs, t - values[0], soFar + [values[0]]), Branches(vs, t, soFar, values[1..]));
  }

  /** Values at least the target open no branch. */
  lemma {:induction false} BranchesBeyond(vs: seq<ValueCell>, t: int, soFar: seq<int>, values: seq<int>)
    requires |soFar| < |vs| - 1
    requires forall i :: 0 <= i < |values| ==> values[i] >= t
    ensures Flatten(Branches(vs, t, soFar, values)) == []
    decreases |values|
  {
    if values != [] {
      BranchesFront(vs, t, soFar, values);
      BranchesBeyond(vs, t, soFar, values[1..]);
    }
  }

  /** With two positions left and the values `lo` to 9 for the next one,
      `permute` emits `soFar + [n, t - n]` for each `n` from `lo` up to the
      largest that leaves at least 1, in increasing order. */
  lemma {:induction false} PairsFrom(vs: seq<ValueCell>, t: int, soFar: seq<int>, values: seq<int>, lo: int)
    requires |soFar| == |vs| - 2 && 1 <= lo <= 10 && CountsUpFrom(values, lo)
    ensures var r := Flatten(Branches(vs, t, soFar, values));
            && |r| == (if lo < t && lo < 10 then (if t < 10 then t else 10) - lo else 0)
            && forall i :: 0 <= i < |r| ==> r[i] == soFar + [lo + i, t - lo - i]
    decreases 10 - lo
  {
    if lo == 10 {
      assert values == [];
    } else if lo >= t {
      BranchesBeyond(vs, t, soFar, values);
    } else {
      BranchesFront(vs, t, soFar, values);
      PairsFrom(vs, t, soFar, values[1..], lo + 1);
      assert Conj(soFar + [lo], t - lo) == soFar + [lo, t - lo];
      assert Permute(vs, t - lo, soFar + [lo]) == [soFar + [lo, t - lo]];
    }
  }

  /** Over two full cells, `permute` emits `soFar + [n, t - n]` for `n`
      from 1 to `t - 1`. */
  lemma FullPairs(vs: seq<ValueCell>, t: int, soFar: seq<int>)
    requires |soFar| == |vs| - 2 && 1 <= t <= 10
    requires CountsUpFrom(vs[|soFar|].values, 1)
    ensures |Permute(vs, t, soFar)| == t - 1
    ensures forall i :: 0 <= i < t - 1 ==> Permute(vs, t, soFar)[i] == soFar + [1 + i, t - 1 - i]
  {
    PairsFrom(vs, t, soFar, vs[|soFar|].values, 1);
  }

  /** The sequences `solveStep` keeps. */
  function Survivors(cells: seq<ValueCell>, total: int): seq<seq<int>>
    requires |cells| >= 1
  {
    var finalIndex := |cells| - 1;
    Filter(v => AllDifferent(v),
      Filter(v => finalIndex < |v| && v[finalIndex] in Last(cells).values,
        PermuteAll(cells, total)))
  }

  /** What `solveStep` keeps: an emitted sequence whose last digit is a
      value of the last cell and that repeats no digit. */
  predicate Survives(cells: seq<ValueCell>, total: int, s: seq<int>)
    requires |cells| >= 1
  {
    Emitted(cells, total, s) && s[|cells| - 1] in Last(cells).values && Distinct(s)
  }

  /** The kept sequences are exactly those that `Survives` describes. */
  lemma SurvivorsMembers(cells: seq<ValueCell>, total: int, s: seq<int>)
    requires |cells| >= 1
    ensures s in Survivors(cells, total) <==> Survives(cells, total, s)
  {
    var finalIndex := |cells| - 1;
    var p1 := v => finalIndex < |v| && v[finalIndex] in Last(cells).values;
    var p2 := v => AllDifferent(v);
    var all := PermuteAll(cells, total);
    FilterMembers(p1, all, s);
    FilterMembers(p2, Filter(p1, all), s);
    PermuteAllMembers(cells, total, s);
  }

  /** Every cell value is at least 1, as digits are. */
  predicate PositiveCells(cells: seq<ValueCell>)
  {
    forall i, n :: 0 <= i < |cells| && n in cells[i].values ==> n >= 1
  }

  /** A sequence of positive numbers adds up to at least its length. */
  lemma {:induction false} SumOfPositives(s: seq<int>)
    requires forall i :: 0 <= i < |s| ==> s[i] >= 1
    ensures Sum(s) >= |s|
  {
    if s != [] {
      SumOfPositives(s[1..]);
    }
  }

  /** When every cell value is positive, neither the early cut-off of
      `permute` nor the synthesised last digit loses or adds anything:
      `solveStep` keeps exactly the sequences with one value of each cell,
      adding up to the total, with no digit repeated. */
  lemma SurvivorsExact(cells: seq<ValueCell>, total: int, s: seq<int>)
    requires |cells| >= 1 && PositiveCells(cells)
    ensures s in Survivors(cells, total) <==> IsRunSolution(cells, total, s)
  {
    SurvivorsMembers(cells, total, s);
    if IsRunSolution(cells, total, s) {
      SolutionSurvives(cells, total, s);
    }
    if Survives(cells, total, s) {
      assert Last(cells) == cells[|cells| - 1];
    }
  }

  /** A solution of the run in the puzzle's own terms: one value of each
      cell, adding up to the total, no digit repeated. */
  predicate IsRunSolution(cells: seq<ValueCell>, total: int, s: seq<int>)
  {
    && |s| == |cells|
    && Sum(s) == total
    && (forall i :: 0 <= i < |s| ==> s[i] in cells[i].values)
    && Distinct(s)
  }

  /** With positive cell values, every solution of the run passes the early
      cut-off of `permute`. */
  lemma SolutionSurvives(cells: seq<ValueCell>, total: int, s: seq<int>)
    requires |cells| >= 1 && PositiveCells(cells)
    requires IsRunSolution(cells, total, s)
    ensures Survives(cells, total, s)
  {
    forall k | 0 <= k < |cells| ensures total - Sum(s[..k]) >= 1 {
      SolutionPrefixLeaves(cells, total, s, k);
    }
    assert Last(cells) == cells[|cells| - 1];
  }

  /** Before any position of a solution at least 1 of the total is left,
      as the digits still to come are positive. */
  lemma SolutionPrefixLeaves(cells: seq<ValueCell>, total: int, s: seq<int>, k: nat)
    requires PositiveCells(cells)
    requires IsRunSolution(cells, total, s)
    requires k < |cells|
    ensures total - Sum(s[..k]) >= 1
  {
    var rest := s[k..];
    assert s == s[..k] + rest;
    SumAppend(s[..k], rest);
    forall i | 0 <= i < |rest| ensures rest[i] >= 1 {
      assert rest[i] == s[k + i] && s[k + i] in cells[k + i].values;
    }
    SumOfPositives(rest);
  }

  /** Every kept sequence has one digit per cell, the digit of the last
      cell among that cell's values. */
  lemma SurvivorsShape(cells: seq<ValueCell>, total: int)
    requires |cells| >= 1
    ensures forall s :: s in Survivors(cells, total) ==> |s| == |cells|
    ensures RowsCoverFirst(Survivors(cells, total))
  {
    forall s | s in Survivors(cells, total) ensures |s| == |cells| {
      SurvivorsMembers(cells, total, s);
    }
  }

  /** The per-cell candidate lists of one solving step: `transpose` of the
      kept sequences. */
  function Columns(cells: seq<ValueCell>, total: int): seq<seq<int>>
    requires |cells| >= 1
  {
    SurvivorsShape(cells, total);
    Transposed(Survivors(cells, total))
  }

  /** The candidate lists are one per cell, or none when nothing survives;
      list `i` holds digit `i` of every kept sequence, in order. */
  lemma ColumnsShape(cells: seq<ValueCell>, total: int)
    requires |cells| >= 1
    ensures Survivors(cells, total) == [] <==> Columns(cells, total) == []
    ensures Survivors(cells, total) != [] ==> |Columns(cells, total)| == |cells|
    ensures forall i :: 0 <= i < |Columns(cells, total)| ==>
              |Columns(cells, total)[i]| == |Survivors(cells, total)| &&
              forall j :: 0 <= j < |Survivors(cells, total)| ==>
                Columns(cells, total)[i][j] == Survivors(cells, total)[j][i]
  {
    SurvivorsShape(cells, total);
    var perms := Survivors(cells, total);
    if perms != [] {
      assert perms[0] in perms;
    }
  }

  /** A digit is a candidate for cell `i` exactly when some kept sequence
      puts it there; in particular every candidate was already a value of
      that cell, so a step only narrows. */
  lemma ColumnsMembers(cells: seq<ValueCell>, total: int, i: nat, x: int)
    requires |cells| >= 1
    requires i < |cells| && i < |Columns(cells, total)|
    ensures x in Columns(cells, total)[i] <==> exists s :: Survives(cells, total, s) && i < |s| && s[i] == x
    ensures x in Columns(cells, total)[i] ==> x in cells[i].values
  {
    if x in Columns(cells, total)[i] {
      CandidateFromSurvivor(cells, total, i, x);
    }
    if exists s :: Survives(cells, total, s) && i < |s| && s[i] == x {
      var s :| Survives(cells, total, s) && i < |s| && s[i] == x;
      SurvivorGivesCandidate(cells, total, i, s);
    }
  }

  /** Entry `j` of candidate list `i` is digit `i` of kept sequence `j`. */
  lemma ColumnEntry(cells: seq<ValueCell>, total: int, i: nat, j: nat)
    requires |cells| >= 1
    requires i < |Columns(cells, total)|
    ensures |Columns(cells, total)[i]| == |Survivors(cells, total)|
    ensures j < |Survivors(cells, total)| ==>
              i < |Survivors(cells, total)[j]| &&
              Columns(cells, total)[i][j] == Survivors(cells, total)[j][i]
  {
    ColumnsShape(cells, total);
    SurvivorsShape(cells, total);
    if j < |Survivors(cells, total)| {
      assert Survivors(cells, total)[j] in Survivors(cells, total);
    }
  }

  /** A candidate of cell `i` is digit `i` of some kept sequence, and so a
      value of cell `i`. */
  lemma CandidateFromSurvivor(cells: seq<ValueCell>, total: int, i: nat, x: int)
    requires |cells| >= 1
    requires i < |cells| && i < |Columns(cells, total)|
    requires x in Columns(cells, total)[i]
    ensures exists s :: Survives(cells, total, s) && i < |s| && s[i] == x
    ensures x in cells[i].values
  {
    var col := Columns(cells, total)[i];
    var j :| 0 <= j < |col| && col[j] == x;
    ColumnEntry(cells, total, i, j);
    var s := Survivors(cells, total)[j];
    assert s in Survivors(cells, total);
    SurvivorsMembers(cells, total, s);
    assert s[i] == x;
    if i == |cells| - 1 {
      assert Last(cells) == cells[i];
    }
  }

  /** Digit `i` of a kept sequence is a candidate of cell `i`. */
  lemma SurvivorGivesCandidate(cells: seq<ValueCell>, total: int, i: nat, s: seq<int>)
    requires |cells| >= 1
    requires i < |Columns(cells, total)|
    requires Survives(cells, total, s) && i < |s|
    ensures s[i] in Columns(cells, total)[i]
  {
    SurvivorsMembers(cells, total, s);
    var perms := Survivors(cells, total);
    var j :| 0 <= j < |perms| && perms[j] == s;
    ColumnEntry(cells, total, i, j);
  }

  /** `solveStep`: one `v(...)` per candidate list.  Since `v` ignores its
      argument, every produced cell is the full cell. */
  function SolveStep(cells: seq<ValueCell>, total: int): seq<ValueCell>
    requires |cells| >= 1
  {
    var cols := Columns(cells, total);
    seq(|cols|, i requires 0 <= i < |cols| => V())
  }

  /** `solveStep` yields nothing when no sequence survives, and otherwise
      one full cell per cell of the run. */
  lemma SolveStepOutcome(cells: seq<ValueCell>, total: int)
    requires |cells| >= 1
    ensures Survivors(cells, total) == [] ==> SolveStep(cells, total) == []
    ensures Survivors(cells, total) != [] ==>
              |SolveStep(cells, total)| == |cells| &&
              forall i :: 0 <= i < |cells| ==> SolveStep(cells, total)[i] == V()
  {
    ColumnsShape(cells, total);
  }

  /** A total below 1 leaves no sequence, so `solveStep` yields nothing. */
  lemma SolveStepNoTotal(cells: seq<ValueCell>, total: int)
    requires |cells| >= 1 && total < 1
    ensures Survivors(cells, total) == []
    ensures SolveStep(cells, total) == []
  {
    ColumnsShape(cells, total);
  }

  /** For a single cell the only candidate is the total, kept when the cell
      allows it. */
  lemma SolveSingleCell(c: ValueCell, total: int)
    ensures Columns([c], total) == if total >= 1 && total in c.values then [[total]] else []
    ensures SolveStep([c], total) == if total >= 1 && total in c.values then [V()] else []
  {
    SurvivorsSingle(c, total);
    if total >= 1 && total in c.values {
      var m := [[total]];
      assert Transposed(m)[0] == [total];
    }
  }

  /** For a single cell the only kept sequence is the total, when the cell
      allows it. */
  lemma SurvivorsSingle(c: ValueCell, total: int)
    ensures Survivors([c], total) == if total >= 1 && total in c.values then [[total]] else []
  {
    PermuteAllSingle(c, total);
    if total >= 1 {
      var s := [total];
      assert Distinct(s);
      var p1 := v => 0 < |v| && v[0] in Last([c]).values;
      var p2 := v => AllDifferent(v);
      assert Filter(p1, [s]) == if total in c.values then [s] else [];
      assert Filter(p2, [s]) == [s];
    }
  }

  /** Running `solveStep` again on its own (non-empty) output with the
      same total changes nothing, for runs of digit cells. */
  lemma SolveStepIdempotent(cells: seq<ValueCell>, total: int)
    requires |cells| >= 1
    requires forall i :: 0 <= i < |cells| ==> IsDigitCell(cells[i])
    requires Survivors(cells, total) != []
    ensures |SolveStep(cells, total)| == |cells|
    ensures SolveStep(SolveStep(cells, total), total) == SolveStep(cells, total)
  {
    var out := SolveStep(cells, total);
    SolveStepOutcome(cells, total);
    var s := Survivors(cells, total)[0];
    assert s in Survivors(cells, total);
    SurvivorsExact(cells, total, s);
    assert PositiveCells(out);
    SurvivorsExact(out, total, s);
    assert s in Survivors(out, total);
    SolveStepOutcome(out, total);
  }
}
