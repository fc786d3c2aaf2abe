# kakuro.js run solver, modelled in Dafny

kakuro.js holds the core of a Kakuro solver. A Kakuro puzzle is made of
runs of cells whose digits must add up to a given total with no digit
repeated. A cell is a `ValueCell` holding the digits still possible for it,
and `v()` builds the full cell 1 to 9. `permute`/`permuteAll` list every
way to fill a run so that it reaches its total. `solveStep` keeps the
sequences whose last digit the last cell allows and that repeat no digit,
regroups them per position (`transpose`) and builds one cell per position.
Around these sit small list utilities: `take`, `drop`, `takeWhile`,
`conj`, `concatLists`, `flatten`, `last`, `allDifferent`, `partitionBy`,
`partitionAll` and `partitionN`.

The project has four modules:

- `Lists` (lists.dfy): the list utilities. `take`, `drop`, `takeWhile` and
  `transpose` are loops in the program. They are methods here, proved
  against the reference functions `Prefix`, `Suffix`, `PrefixWhile` and
  `Transposed`. The others are functions, with lemmas about them.
- `Cells` (cells.dfy): the `ValueCell` datatype, `arrEquals`, `equals`,
  `v` and the loop `isPossible`. A cell's values are set once and never
  changed, so a cell is a value.
- `Kakuro` (kakuro.dfy): `permute`, `permuteAll` and `solveStep`. Its
  lemmas state exactly which sequences `permute` emits, which ones
  `solveStep` keeps, and what it returns.
- `Scenarios` (scenarios.dfy): the checks made by the program's own test
  functions, proved about the model.

Two things the program does may surprise a reader.

- `v` ignores its arguments. `solveStep` calls `v(coll)` on each candidate
  list, so it returns `[]` when no sequence survives. Otherwise it returns
  one full cell per cell of the run. It never narrows a cell. The model
  follows the code: `SolveStep` is `|Columns|` copies of `V()`.
  `NarrowedColumns` shows the candidate lists that the regrouping does
  compute. `testSolveStep` passes only because `v(1, 2)` and `v(3, 4)` are
  both the full cell.
- `permute` gives the last position whatever is left of the total. It does
  not check that the last cell allows it, and the digit may exceed 9. Only
  `solveStep`'s first filter checks the last digit.

A solving step might be expected to return one narrowed cell per cell, and
an empty cell per position when nothing fits. The code returns `[]` when
nothing fits and full cells otherwise. Its candidate lists keep every digit
of every kept sequence, in order and with repeats (`[4, 3]`, not `{3, 4}`).
The model follows the code.

## Model

| member | source | states |
|---|---|---|
| Lists.Take | kakuro.js:121-132 | the result has `n` clamped into `0..|coll|` items and is that prefix of `coll` (`Prefix`) |
| Lists.Drop | kakuro.js:109-119 | the result has `|coll|` minus `n` (clamped) items and is the matching suffix of `coll` (`Suffix`) |
| Lists.TakeDropSplit | kakuro.js:109-132 | `take(n, c)` followed by `drop(n, c)` is `c`, and their lengths add up to `|c|` |
| Lists.SuffixSuffix | kakuro.js:109-119 | dropping `b` then `a` items (both non-negative) drops `a + b` |
| Lists.PrefixWhile | kakuro.js:98-107 | the reference `takeWhile` is the longest prefix whose items all satisfy `f`: the next item, if any, fails `f` |
| Lists.LongestPrefixWhileUnique | kakuro.js:98-107 | any two longest prefixes satisfying `f` are equal, so `takeWhile` is determined by that property |
| Lists.TakeWhile | kakuro.js:98-107 | the loop with `break` returns the longest prefix all of whose items satisfy `f` |
| Lists.Conj | kakuro.js:41-43 | the result is `arr` followed by `value`, one item longer |
| Lists.ConcatLists | kakuro.js:45-47 | the result is as long as both lists together |
| Lists.ConcatListsSplit | kakuro.js:45-47 | taking `|coll1|` items of the result gives `coll1` back, and dropping them gives `coll2` |
| Lists.Last | kakuro.js:159-161 | on a non-empty list the result is one of its items |
| Lists.LastConj | kakuro.js:159-161 | `last(conj(arr, x))` is `x`, and a non-empty list is `conj` of its front and its last item |
| Lists.Flatten | kakuro.js:37-39 | the arrays concatenated in order; see `FlattenMembers`, `FlattenCons` and `FlattenAppend` |
| Lists.FlattenCons | kakuro.js:37-39 | flattening `[a] + rest` gives `a` followed by the flattened rest |
| Lists.FlattenMembers | kakuro.js:37-39 | an item is in the flattened list exactly when it is in one of the arrays |
| Lists.FlattenAppend | kakuro.js:37-39 | flattening distributes over concatenation of the outer list |
| Lists.Filter | kakuro.js:166-167 | the result is no longer than the list and keeps only items of the list that satisfy the predicate; see `FilterMembers` and `FilterAppend` |
| Lists.FilterMembers | kakuro.js:166-167 | `filter` keeps exactly the items that satisfy the predicate |
| Lists.FilterFront | kakuro.js:166-167 | on a non-empty list, `filter` keeps the first item or not, then filters the rest |
| Lists.FilterAppend | kakuro.js:166-167 | filtering a concatenation is concatenating the filtered parts |
| Lists.DistinctPair | kakuro.js:49-51 | two numbers repeat none exactly when they differ |
| Lists.DistinctTriple | kakuro.js:49-51 | three numbers repeat none exactly when no two are equal |
| Lists.ElementsCardinality | kakuro.js:49-51 | `new Set(arr).size` is at most `arr.length`, with equality exactly when no item repeats |
| Lists.AllDifferent | kakuro.js:49-51 | true exactly when no two positions hold equal items |
| Lists.Transpose | kakuro.js:81-96 | an empty matrix gives `[]`; otherwise one row per column of the first row, each as long as the matrix, with `result[i][j] == m[j][i]` |
| Lists.TransposeTwice | kakuro.js:81-96 | transposing a non-empty rectangular matrix with non-empty rows twice gives it back |
| Lists.Group | kakuro.js:139-141 | the group is a non-empty prefix whose items share the head's `f` value, and the item after it has a different value |
| Lists.PartitionBy | kakuro.js:134-144 | the groups in order; see `PartitionByFlatten`, `PartitionByUniform` and `PartitionByMaximal` |
| Lists.PartitionByCons | kakuro.js:134-144 | a non-empty list is split into its first group followed by the partition of the rest |
| Lists.PartitionByFlatten | kakuro.js:134-144 | the groups concatenate back to the list |
| Lists.PartitionByUniform | kakuro.js:134-144 | every group is non-empty and all its items share the `f` value of its first item |
| Lists.PartitionByMaximal | kakuro.js:134-144 | neighbouring groups have different `f` values |
| Lists.PartitionAll | kakuro.js:146-153 | chunks `take(n, ...)` starting every `step` items; see `PartitionAllCount` and `PartitionAllChunk` |
| Lists.PartitionAllCons | kakuro.js:146-153 | a non-empty list gives `take(n, coll)` followed by the chunks of `drop(step, coll)` |
| Lists.PartitionAllCount | kakuro.js:146-153 | the chunk count `k` is the ceiling of `|c| / step`: `(k - 1) * step < |c| <= k * step` |
| Lists.PartitionAllChunk | kakuro.js:146-153 | chunk `k` is `take(n, drop(k * step, c))` |
| Lists.PartitionN | kakuro.js:155-157 | `partitionAll(n, n, coll)`; see `PartitionNFlatten` |
| Lists.PartitionNFlatten | kakuro.js:155-157 | the chunks of `partitionN` concatenate back to the list |
| Cells.ArrEquals | kakuro.js:6-8 | true exactly when both arrays have the same length and equal items at every position |
| Cells.ValueCell.Equals | kakuro.js:19-30 | true exactly when both cells' values are equal position by position, which is equality of the cells |
| Cells.V | kakuro.js:33-35 | the full cell holds 9 values, value `i` is `i + 1`, and its members are exactly 1 to 9 |
| Cells.IsPossible | kakuro.js:72-79 | the loop answers true exactly when `n` is among the cell's values |
| Kakuro.Permute | kakuro.js:53-66 | the recursive enumeration; see `PermuteMembers` |
| Kakuro.Branches | kakuro.js:59 | one branch per value of the next cell; see `BranchAt` |
| Kakuro.BranchAt | kakuro.js:59 | branch `i` of the `map` is `permute` continued with the `i`-th value of the next cell |
| Kakuro.PermuteStep | kakuro.js:58-61 | before the last position, a sequence is emitted exactly when some branch emits it |
| Kakuro.LastPosition | kakuro.js:54-56 | at the last position the only sequence emitted ends with what is left of the total |
| Kakuro.NothingLeft | kakuro.js:63-65 | with less than 1 left, no sequence completes the partial one |
| Kakuro.PermuteMembers | kakuro.js:53-66 | `permute` emits exactly the completions of `soFar`: full length, adding up to `target`, each position but the last from its cell, at least 1 left before every position |
| Kakuro.PermuteAll | kakuro.js:68-70 | `permute` from the empty sequence; see `PermuteAllMembers` and `PermuteAllSound` |
| Kakuro.PermuteAllMembers | kakuro.js:68-70 | `permuteAll` emits exactly the sequences described by `Emitted` |
| Kakuro.PermuteAllSound | kakuro.js:53-70 | every emitted sequence has one item per cell and sums to the target; every item but the last comes from its cell, and the last is at least 1 |
| Kakuro.PermuteNoTarget | kakuro.js:53-65 | with a target below 1, `permute` emits nothing |
| Kakuro.PermuteAllSingle | kakuro.js:53-70 | for one cell, `permuteAll` gives `[[target]]` when the target is at least 1, whatever the cell holds, and `[]` otherwise |
| Kakuro.BranchesFront | kakuro.js:59-60 | the flattened branches are the first value's branch followed by the others' |
| Kakuro.BranchesBeyond | kakuro.js:54-64 | values at least the target open no branch that emits anything |
| Kakuro.PairsFrom | kakuro.js:53-66 | with two positions left and values `lo` to 9 next, `permute` emits `soFar + [n, t - n]` for `n` from `lo` upward while at least 1 is left, in order |
| Kakuro.FullPairs | kakuro.js:53-66 | over two full cells, `permute` emits `soFar + [n, t - n]` for `n` from 1 to `t - 1`, in order |
| Kakuro.Survivors | kakuro.js:164-167 | the sequences kept by both filters; see `SurvivorsMembers` and `SurvivorsExact` |
| Kakuro.SurvivorsMembers | kakuro.js:164-167 | a sequence is kept exactly when it is emitted, its last item is a value of the last cell, and no item repeats |
| Kakuro.SolutionSurvives | kakuro.js:164-167 | with positive cell values, every solution of the run is kept |
| Kakuro.SurvivorsExact | kakuro.js:163-167 | with positive cell values, the kept sequences are exactly the solutions of the run: one value per cell, summing to the total, no item repeated |
| Kakuro.SurvivorsShape | kakuro.js:164-168 | every kept sequence has one item per cell, so `transpose` reads only existing items |
| Kakuro.Columns | kakuro.js:168 | `transpose` of the kept sequences; see `ColumnsShape` and `ColumnsMembers` |
| Kakuro.ColumnsShape | kakuro.js:168 | no candidate lists when nothing is kept; otherwise one per cell, list `i` holding item `i` of every kept sequence in order |
| Kakuro.ColumnsMembers | kakuro.js:163-168 | a digit is a candidate for cell `i` exactly when a kept sequence puts it there, and it is then one of that cell's values |
| Kakuro.SolveStep | kakuro.js:163-170 | `v(coll)` for every candidate list; see `SolveStepOutcome` |
| Kakuro.SolveStepOutcome | kakuro.js:163-170 | `solveStep` returns `[]` when nothing is kept, and otherwise one full cell `v()` per cell |
| Kakuro.SolveStepNoTotal | kakuro.js:163-170 | with a total below 1 nothing is kept and `solveStep` returns `[]` |
| Kakuro.SurvivorsSingle | kakuro.js:163-167 | for one cell the only kept sequence is `[total]`, and only when the cell allows it |
| Kakuro.SolveSingleCell | kakuro.js:163-170 | for one cell the candidates are `[[total]]` when the cell allows the total, else none; `solveStep` gives `[v()]` or `[]` accordingly |
| Kakuro.SolveStepIdempotent | kakuro.js:163-170 | for digit cells with a kept sequence, applying `solveStep` again to its result with the same total changes nothing |
| Scenarios.AllFullIsV | kakuro.js:33-35 | a cell holds 1 to 9 in order exactly when it is `v()` |
| Scenarios.TwoFullCells | kakuro.js:53-70 | two full cells and total 6 give `[1, 5]`, `[2, 4]`, `[3, 3]`, `[4, 2]`, `[5, 1]` in this order |
| Scenarios.TwoFullCellsDifferent | kakuro.js:49-70 | four of those five repeat no digit |
| Scenarios.ThreeFullCells | kakuro.js:184-191 | three full cells and total 6 give the 10 sequences from `[1, 1, 4]` to `[4, 1, 1]`, in this order |
| Scenarios.ThreeFullCellsDifferent | kakuro.js:184-191 | six of those ten repeat no digit |
| Scenarios.TestPermute | kakuro.js:184-191 | `permuteAll([v(), v(), v()], 6)` has 10 sequences, 6 of them without repeats |
| Scenarios.TestTranspose | kakuro.js:193-200 | the 3 by 4 test matrix transposes to 4 rows of 3 |
| Scenarios.TestTakeWhile | kakuro.js:202-206 | the items below 4 at the front of 0 to 9 are `[0, 1, 2, 3]` |
| Scenarios.TestConcatDropTake | kakuro.js:208-228 | concatenating 3 and 6 items gives 9; `drop(4, ...)` of 6 items is `[5, 6]` and `take(4, ...)` is `[1, 2, 3, 4]` |
| Lists.PartitionByFrom | kakuro.js:134-144 | a group ends where the `f` value first changes, so the group count drops by one past it |
| Lists.GroupOfOne | kakuro.js:134-144 | a group of one item counts as one group |
| Lists.GroupOfTwo | kakuro.js:134-144 | a group of two equal-key items counts as one group |
| Lists.GroupOfThree | kakuro.js:134-144 | a group of three equal-key items counts as one group |
| Scenarios.TestPartBy | kakuro.js:230-235 | splitting the test data by parity gives 9 groups |
| Scenarios.TestPartAllN | kakuro.js:237-249 | the 13 test items give 5 chunks with `partitionAll(5, 3, ...)` and 3 with `partitionN(5, ...)` |
| Scenarios.SolveStepFull | kakuro.js:163-170 | two full cells and total 5 keep a sequence, so `solveStep` gives two full cells |
| Scenarios.TestSolveStep | kakuro.js:251-256 | `solveStep([v(1, 2), v()], 5)` is `[v(), v()]`, and both cells `equals` the expected ones |
| Scenarios.NarrowedColumns | kakuro.js:163-168 | a cell holding 1 and 2 next to a full cell, total 5: kept `[1, 4]` and `[2, 3]`, candidate lists `[1, 2]` and `[4, 3]` |

## Left out

- `ValueCell.toString` and the `console.log` test output: text output is not modelled.
- The test harness `assertEquals`/`assertValueEquals` and the calls that run the tests: the checks themselves are lemmas in `Scenarios`.
- Cells.ValueCell.Equals: the `null` and `undefined` branches of `equals` are not modelled, because a `ValueCell` value is never null and always has values.
- Cells.ArrEquals: `JSON.stringify` is modelled as equality of integer sequences, which is what it amounts to for arrays of integers.
- Lists.Last: requires a non-empty list. On `[]` the program returns `undefined`, which the model has no value for.
- Kakuro.PermuteAll: requires at least one cell or a target below 1. With no cells and a target below 1 the program returns `[]` at kakuro.js:63-64, as the model does; with no cells and a target of at least 1 it reads `vs[0].values` at kakuro.js:59 and throws.
- Lists.PartitionAll: requires `step >= 1` or an empty list. On `[]` the program returns `[]` at kakuro.js:147 whatever the step, as the model does; on a non-empty list with a step below 1, `drop` returns the list unchanged, so the program recurses on the same list until the stack overflows. The same holds for `Lists.PartitionN`.
- Lists.Transpose: requires every row to be at least as long as the first. The program would push `undefined` for missing items.
- Kakuro.SolveStepIdempotent: proved for runs of digit cells with at least one kept sequence. When nothing is kept the result is `[]`. `.filter` never calls its callback on an empty list, so `last([])` is never read. With a total of at least 1, `solveStep([], total)` throws at kakuro.js:59 (`vs[0]` is undefined). With a total below 1 it returns `[]`, so idempotence holds there, but the model's `SolveStep` requires a non-empty run and does not state that case. A run with a cell outside 1 to 9 is not covered either: a single cell holding only 10, with total 10, gives `[v()]`, which then gives `[]`.
- Lists.Group: keys are compared with `===` at kakuro.js:141. The model compares them by value equality, which is reflexive. `NaN` keys and object-valued keys, for which `fx === f(head)` can fail, are not modelled. On such keys the group is empty, `drop(0, coll)` returns `coll`, and the program never terminates.
- Functions passed to `takeWhile`, `partitionBy` and `filter` are modelled as pure; side effects in them are not modelled.
- JavaScript numbers are modelled as unbounded integers. Sums of digits stay far below 2^53, where the two differ.
