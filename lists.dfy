/** Generic sequence utilities of kakuro.js: take, drop, takeWhile, conj,
    concatLists, flatten, last, allDifferent, transpose and the three
    partitioning functions.  The ones the program writes as loops that push
    into a local array (take, drop, takeWhile, transpose) are methods proved
    against a reference function; the others are functions. */
module Lists {

  /** How many leading elements `take(n, ...)` keeps and `drop(n, ...)` skips
      from a collection of length `len`: `n` clamped into `0..len`. */
  function Clamp(n: int, len: nat): nat
  {
    if n <= 0 then 0 else if n <= len then n else len
  }

  /** Reference definition of `take(n, c)`. */
  function Prefix<T>(n: int, c: seq<T>): seq<T>
  {
    c[..Clamp(n, |c|)]
  }

  /** Reference definition of `drop(n, c)`. */
  function Suffix<T>(n: int, c: seq<T>): seq<T>
  {
    c[Clamp(n, |c|)..]
  }

  /** `take`: counts the items seen, starting at 1, and returns what it has
      pushed as soon as the count exceeds `n`. */
  method Take<T>(n: int, coll: seq<T>) returns (result: seq<T>)
    ensures |result| == if n <= 0 then 0 else if n <= |coll| then n else |coll|
    ensures result == coll[..|result|]
    ensures result == Prefix(n, coll)
  {
    result := [];
    var count := 1;
    for i := 0 to |coll|
      invariant count == i + 1
      invariant result == coll[..i]
      invariant i > 0 ==> i <= n
    {
      if count > n {
        return;
      }
      result := result + [coll[i]];
      count := count + 1;
    }
  }

  /** `drop`: counts the items seen, starting at 1, and pushes every item
      whose count exceeds `n`. */
  method Drop<T>(n: int, coll: seq<T>) returns (result: seq<T>)
    ensures |result| == if n <= 0 then |coll| else if n <= |coll| then |coll| - n else 0
    ensures result == Suffix(n, coll)
  {
    result := [];
    var count := 1;
    for i := 0 to |coll|
      invariant count == i + 1
      invariant i <= n ==> result == []
      invariant n < i ==> result == coll[if n <= 0 then 0 else n..i]
    {
      if count > n {
        result := result + [coll[i]];
      }
      count := count + 1;
    }
  }

  /** Splitting at any `n` and concatenating gives the collection back. */
  lemma TakeDropSplit<T>(n: int, c: seq<T>)
    ensures Prefix(n, c) + Suffix(n, c) == c
    ensures |Prefix(n, c)| + |Suffix(n, c)| == |c|
  {
  }

  /** Dropping twice drops the sum of the (non-negative) counts. */
  lemma SuffixSuffix<T>(a: int, b: int, c: seq<T>)
    requires a >= 0 && b >= 0
    ensures Suffix(a, Suffix(b, c)) == Suffix(a + b, c)
  {
  }

  /** `r` is the longest prefix of `c` whose elements all satisfy `f`. */
  predicate IsLongestPrefixWhile<T(==)>(f: T -> bool, c: seq<T>, r: seq<T>)
  {
    && |r| <= |c|
    && r == c[..|r|]
    && (forall x :: x in r ==> f(x))
    && (|r| < |c| ==> !f(c[|r|]))
  }

  /** Reference definition of `takeWhile(f, c)`. */
  function PrefixWhile<T(==)>(f: T -> bool, c: seq<T>): (r: seq<T>)
    ensures IsLongestPrefixWhile(f, c, r)
  {
    if c == [] || !f(c[0]) then [] else [c[0]] + PrefixWhile(f, c[1..])
  }

  /** There is only one longest prefix, so any two agree. */
  lemma {:induction false} LongestPrefixWhileUnique<T>(f: T -> bool, c: seq<T>, r1: seq<T>, r2: seq<T>)
    requires IsLongestPrefixWhile(f, c, r1)
    requires IsLongestPrefixWhile(f, c, r2)
    ensures r1 == r2
  {
  }

  /** `takeWhile`: pushes items until the first one that fails `f`. */
  method TakeWhile<T(==)>(f: T -> bool, coll: seq<T>) returns (result: seq<T>)
    ensures IsLongestPrefixWhile(f, coll, result)
    ensures result == PrefixWhile(f, coll)
  {
    result := [];
    for i := 0 to |coll|
      invariant result == coll[..i]
      invariant forall j :: 0 <= j < i ==> f(coll[j])
    {
      if !f(coll[i]) {
        break;
      }
      result := result + [coll[i]];
    }
    LongestPrefixWhileUnique(f, coll, result, PrefixWhile(f, coll));
  }

  /** `conj`: a copy of `arr` with `value` appended. */
  function Conj<T>(arr: seq<T>, value: T): (r: seq<T>)
    ensures |r| == |arr| + 1
    ensures r[..|arr|] == arr && r[|arr|] == value
  {
    arr + [value]
  }

  /** `concatLists`: the first list followed by the second. */
  function ConcatLists<T>(coll1: seq<T>, coll2: seq<T>): (r: seq<T>)
    ensures |r| == |coll1| + |coll2|
  {
    coll1 + coll2
  }

  /** `take` and `drop` at the length of the first list undo `concatLists`. */
  lemma ConcatListsSplit<T>(coll1: seq<T>, coll2: seq<T>)
    ensures Prefix(|coll1|, ConcatLists(coll1, coll2)) == coll1
    ensures Suffix(|coll1|, ConcatLists(coll1, coll2)) == coll2
  {
  }

  /** `last`: the final element. */
  function Last<T>(coll: seq<T>): (r: T)
    requires |coll| > 0
    ensures r in coll
  {
    coll[|coll| - 1]
  }

  /** `last` undoes `conj`, and every non-empty collection is `conj` of its
      initial part and its last element. */
  lemma LastConj<T>(arr: seq<T>, value: T, coll: seq<T>)
    requires |coll| > 0
    ensures Last(Conj(arr, value)) == value
    ensures Conj(coll[..|coll| - 1], Last(coll)) == coll
  {
  }

  /** `flatten`: concatenation of all the arrays, in order. */
  function Flatten<T>(arrays: seq<seq<T>>): seq<T>
  {
    if arrays == [] then [] else arrays[0] + Flatten(arrays[1..])
  }

  /** An element occurs in the flattened sequence exactly when it occurs
      in one of the arrays. */
  lemma {:induction false} FlattenMembers<T>(arrays: seq<seq<T>>, x: T)
    ensures x in Flatten(arrays) <==> exists i :: 0 <= i < |arrays| && x in arrays[i]
  {
    if arrays != [] {
      FlattenMembers(arrays[1..], x);
      if x in Flatten(arrays[1..]) {
        var i :| 0 <= i < |arrays[1..]| && x in arrays[1..][i];
        assert x in arrays[i + 1];
      }
      if exists i :: 0 <= i < |arrays| && x in arrays[i] {
        var i :| 0 <= i < |arrays| && x in arrays[i];
        if i > 0 {
          assert x in arrays[1..][i - 1];
        }
      }
    }
  }

  /** Flattening distributes over concatenation of the outer sequence. */
  lemma {:induction false} FlattenAppend<T>(a: seq<seq<T>>, b: seq<seq<T>>)
    ensures Flatten(a + b) == Flatten(a) + Flatten(b)
  {
    if a != [] {
      assert (a + b)[0] == a[0];
      assert (a + b)[1..] == a[1..] + b;
      FlattenAppend(a[1..], b);
      calc {
        Flatten(a + b);
        (a + b)[0] + Flatten((a + b)[1..]);
        a[0] + (Flatten(a[1..]) + Flatten(b));
        (a[0] + Flatten(a[1..])) + Flatten(b);
        Flatten(a) + Flatten(b);
      }
    } else {
      assert a + b == b;
    }
  }

  /** The builtin `Array.prototype.filter`. */
  function Filter<T>(p: T -> bool, s: seq<T>): (r: seq<T>)
    ensures |r| <= |s|
    ensures forall k :: 0 <= k < |r| ==> r[k] in s && p(r[k])
  {
    if s == [] then [] else (if p(s[0]) then [s[0]] else []) + Filter(p, s[1..])
  }

  /** `filter` keeps exactly the elements that satisfy the predicate. */
  lemma {:induction false} FilterMembers<T>(p: T -> bool, s: seq<T>, x: T)
    ensures x in Filter(p, s) <==> x in s && p(x)
  {
    if s != [] {
      FilterMembers(p, s[1..], x);
      assert s == [s[0]] + s[1..];
    }
  }

  /** One step of `filter`: the first element is kept or not, then the
      rest is filtered. */
  lemma FilterFront<T>(p: T -> bool, s: seq<T>)
    requires s != []
    ensures |Filter(p, s)| == (if p(s[0]) then 1 else 0) + |Filter(p, s[1..])|
  {
  }

  /** `filter` of a concatenation is the concatenation of the filtered
      parts. */
  lemma {:induction false} FilterAppend<T>(p: T -> bool, a: seq<T>, b: seq<T>)
    ensures Filter(p, a + b) == Filter(p, a) + Filter(p, b)
  {
    if a != [] {
      assert (a + b)[1..] == a[1..] + b;
      FilterAppend(p, a[1..], b);
    } else {
      assert a + b == b;
    }
  }

  /** No element occurs twice. */
  predicate Distinct<T(==)>(a: seq<T>)
  {
    forall i, j :: 0 <= i < j < |a| ==> a[i] != a[j]
  }

  /** The set built from the elements of `a`. */
  function Elements<T(==)>(a: seq<T>): set<T>
  {
    set x | x in a
  }

  /** A non-empty sequence repeats no element exactly when its head does
      not occur again and its tail repeats none. */
  lemma DistinctCons<T>(a: seq<T>)
    requires a != []
    ensures Distinct(a) <==> a[0] !in a[1..] && Distinct(a[1..])
  {
    var t := a[1..];
    if a[0] in t {
      var j :| 0 <= j < |t| && t[j] == a[0];
      assert a[0] == a[j + 1];
    } else if Distinct(t) {
      forall i, j | 0 <= i < j < |a| ensures a[i] != a[j] {
        assert a[j] == t[j - 1];
        if i > 0 {
          assert a[i] == t[i - 1];
        }
      }
    } else {
      var i, j :| 0 <= i < j < |t| && t[i] == t[j];
      assert a[i + 1] == a[j + 1];
    }
  }

  /** Two numbers are different exactly when they are not equal. */
  lemma DistinctPair(a: int, b: int)
    ensures Distinct([a, b]) <==> a != b
  {
    var s := [a, b];
    if a != b {
      forall i, j | 0 <= i < j < 2 ensures s[i] != s[j] {
        assert i == 0 && j == 1;
      }
    } else {
      assert s[0] == s[1];
    }
  }

  /** Three numbers are different exactly when no two are equal. */
  lemma DistinctTriple(a: int, b: int, c: int)
    ensures Distinct([a, b, c]) <==> a != b && a != c && b != c
  {
    var s := [a, b, c];
    if a != b && a != c && b != c {
      forall i, j | 0 <= i < j < 3 ensures s[i] != s[j] {
        assert i == 0 || i == 1;
      }
    } else {
      assert s[0] == s[1] || s[0] == s[2] || s[1] == s[2];
    }
  }

  /** A sequence has at most as many distinct elements as positions, and
      exactly as many when no element repeats. */
  lemma {:induction false} ElementsCardinality<T>(a: seq<T>)
    ensures |Elements(a)| <= |a|
    ensures |Elements(a)| == |a| <==> Distinct(a)
  {
    if a == [] {
      assert Elements(a) == {};
    } else {
      var t := a[1..];
      ElementsCardinality(t);
      DistinctCons(a);
      assert Elements(a) == {a[0]} + Elements(t);
      if a[0] in t {
        assert Elements(a) == Elements(t);
      } else {
        assert a[0] !in Elements(t);
      }
    }
  }

  /** `allDifferent`: the array is as long as the set of its elements,
      which holds exactly when no element repeats. */
  function AllDifferent<T(==)>(arr: seq<T>): (r: bool)
    ensures r <==> Distinct(arr)
  {
    ElementsCardinality(arr);
    |arr| == |Elements(arr)|
  }

  /** `transpose` reads `m[j][i]` for every row `j` and every `i` below the
      length of the first row, so every row must be at least that long. */
  predicate RowsCoverFirst<T>(m: seq<seq<T>>)
  {
    forall j :: 0 <= j < |m| ==> |m[0]| <= |m[j]|
  }

  /** Reference definition of `transpose`: row `i` collects the `i`-th
      element of every row of `m`. */
  function Transposed<T>(m: seq<seq<T>>): seq<seq<T>>
    requires RowsCoverFirst(m)
  {
    if |m| == 0 then []
    else seq(|m[0]|, i requires 0 <= i < |m[0]| => seq(|m|, j requires 0 <= j < |m| => m[j][i]))
  }

  /** `transpose`: for each column index of the first row, pushes the row
      made of that column of every row. */
  method Transpose<T>(m: seq<seq<T>>) returns (result: seq<seq<T>>)
    requires RowsCoverFirst(m)
    ensures m == [] ==> result == []
    ensures m != [] ==> |result| == |m[0]|
    ensures forall i :: 0 <= i < |result| ==> |result[i]| == |m|
    ensures forall i, j :: 0 <= i < |result| && 0 <= j < |m| ==> result[i][j] == m[j][i]
    ensures result == Transposed(m)
  {
    if |m| == 0 {
      return [];
    }
    result := [];
    for i := 0 to |m[0]|
      invariant |result| == i
      invariant forall k :: 0 <= k < i ==> result[k] == seq(|m|, j requires 0 <= j < |m| => m[j][k])
    {
      var row := [];
      for j := 0 to |m|
        invariant row == seq(j, j' requires 0 <= j' < j => m[j'][i])
      {
        row := row + [m[j][i]];
      }
      result := result + [row];
    }
  }

  /** Every row has the same length. */
  predicate Rectangular<T>(m: seq<seq<T>>)
  {
    forall j :: 0 <= j < |m| ==> |m[j]| == |m[0]|
  }

  /** Transposing a non-empty rectangular matrix with non-empty rows twice
      gives it back. */
  lemma TransposeTwice<T>(m: seq<seq<T>>)
    requires m != [] && |m[0]| > 0 && Rectangular(m)
    ensures RowsCoverFirst(Transposed(m))
    ensures Transposed(Transposed(m)) == m
  {
    var t := Transposed(m);
    assert |t| == |m[0]|;
    assert forall i :: 0 <= i < |t| ==> |t[i]| == |m|;
    var tt := Transposed(t);
    assert |tt| == |m|;
    forall j | 0 <= j < |m| ensures tt[j] == m[j] {
      assert |tt[j]| == |m[j]|;
      forall i | 0 <= i < |m[j]| ensures tt[j][i] == m[j][i] {
        assert tt[j][i] == t[i][j];
      }
    }
  }

  /** The group `partitionBy` cuts off the front of a non-empty `coll`: the
      longest prefix whose elements have the same `f` value as the head. */
  function Group<T(==), K(==)>(f: T -> K, coll: seq<T>): (group: seq<T>)
    requires coll != []
    ensures 1 <= |group| <= |coll|
    ensures group == coll[..|group|]
    ensures forall x :: x in group ==> f(x) == f(coll[0])
    ensures |group| < |coll| ==> f(coll[|group|]) != f(coll[0])
  {
    var fx := f(coll[0]);
    PrefixWhile(y => fx == f(y), coll)
  }

  /** `partitionBy`: splits `coll` into maximal runs of consecutive
      elements on which `f` gives the same value. */
  function PartitionBy<T(==), K(==)>(f: T -> K, coll: seq<T>): seq<seq<T>>
    decreases |coll|
  {
    if 0 == |coll| then []
    else
      var group := Group(f, coll);
      ConcatLists([group], PartitionBy(f, Suffix(|group|, coll)))
  }

  /** Flattening a sequence that starts with `a` starts with `a`. */
  lemma FlattenCons<T>(a: seq<T>, rest: seq<seq<T>>)
    ensures Flatten([a] + rest) == a + Flatten(rest)
  {
    assert ([a] + rest)[1..] == rest;
  }

  /** The first group and what follows it make up the collection. */
  lemma GroupSplit<T, K>(f: T -> K, c: seq<T>)
    requires c != []
    ensures Group(f, c) + Suffix(|Group(f, c)|, c) == c
  {
    var g := Group(f, c);
    assert c == c[..|g|] + c[|g|..];
  }

  /** A non-empty collection is partitioned into its first group followed
      by the partition of what comes after that group. */
  lemma PartitionByCons<T, K>(f: T -> K, c: seq<T>)
    requires c != []
    ensures PartitionBy(f, c) == [Group(f, c)] + PartitionBy(f, Suffix(|Group(f, c)|, c))
  {
  }

  /** The groups of `partitionBy` concatenate back to the collection. */
  lemma {:induction false} PartitionByFlatten<T, K>(f: T -> K, c: seq<T>)
    ensures Flatten(PartitionBy(f, c)) == c
    decreases |c|
  {
    if c != [] {
      var group := Group(f, c);
      var rest := Suffix(|group|, c);
      PartitionByFlatten(f, rest);
      PartitionByCons(f, c);
      FlattenCons(group, PartitionBy(f, rest));
      GroupSplit(f, c);
    }
  }

  /** Every group of `partitionBy` is non-empty and all its elements have
      the `f` value of its first element. */
  lemma {:induction false} PartitionByUniform<T, K>(f: T -> K, c: seq<T>)
    ensures forall k :: 0 <= k < |PartitionBy(f, c)| ==> PartitionBy(f, c)[k] != []
    ensures forall k, x :: 0 <= k < |PartitionBy(f, c)| && x in PartitionBy(f, c)[k] ==>
              PartitionBy(f, c)[k] != [] && f(x) == f(PartitionBy(f, c)[k][0])
    decreases |c|
  {
    if c != [] {
      var group := Group(f, c);
      var rest := Suffix(|group|, c);
      PartitionByUniform(f, rest);
      var r := PartitionBy(f, c);
      var tail := PartitionBy(f, rest);
      assert r == [group] + tail;
      assert group[0] == c[0];
      forall k | 0 <= k < |r| ensures r[k] != [] {
        if k > 0 {
          assert r[k] == tail[k - 1];
        }
      }
      forall k, x | 0 <= k < |r| && x in r[k] ensures r[k] != [] && f(x) == f(r[k][0]) {
        if k > 0 {
          assert r[k] == tail[k - 1];
        }
      }
    }
  }

  /** Neighbouring groups of `partitionBy` have different `f` values: each
      group is as long as it can be. */
  lemma {:induction false} PartitionByMaximal<T, K>(f: T -> K, c: seq<T>)
    ensures forall j, k :: 0 <= j < k < |PartitionBy(f, c)| && k == j + 1 ==>
              PartitionBy(f, c)[j] != [] && PartitionBy(f, c)[k] != [] &&
              f(PartitionBy(f, c)[j][0]) != f(PartitionBy(f, c)[k][0])
    decreases |c|
  {
    if c != [] {
      var group := Group(f, c);
      var rest := Suffix(|group|, c);
      PartitionByMaximal(f, rest);
      PartitionByUniform(f, c);
      var r := PartitionBy(f, c);
      var tail := PartitionBy(f, rest);
      assert r == [group] + tail;
      if tail != [] {
        PartitionByFlatten(f, rest);
        PartitionByUniform(f, rest);
        assert Flatten(tail) == tail[0] + Flatten(tail[1..]);
        assert tail[0][0] == rest[0] == c[|group|];
      }
      forall j, k | 0 <= j < k < |r| && k == j + 1
        ensures r[j] != [] && r[k] != [] && f(r[j][0]) != f(r[k][0])
      {
        if j > 0 {
          assert r[j] == tail[j - 1] && r[k] == tail[k - 1];
        } else {
          assert r[0] == group && r[1] == tail[0];
          assert r[0][0] == c[0];
          assert f(r[1][0]) == f(c[|group|]);
        }
      }
    } else {
      assert PartitionBy(f, c) == [];
    }
  }

  /** The group of `partitionBy` starting at `j` ends at `k`, when the
      items from `j` to `k` share their `f` value and item `k` differs. */
  lemma PartitionByFrom<T, K>(f: T -> K, c: seq<T>, j: nat, k: nat)
    requires j < k <= |c|
    requires forall i :: j <= i < k ==> f(c[i]) == f(c[j])
    requires k < |c| ==> f(c[k]) != f(c[j])
    ensures |PartitionBy(f, c[j..])| == 1 + |PartitionBy(f, c[k..])|
  {
    var s := c[j..];
    var g := Group(f, s);
    PartitionByCons(f, s);
    assert s[k - j..] == c[k..];
  }

  /** `PartitionByFrom` for a group of one item. */
  lemma GroupOfOne<T, K>(f: T -> K, c: seq<T>, j: nat)
    requires j < |c|
    requires j + 1 < |c| ==> f(c[j + 1]) != f(c[j])
    ensures |PartitionBy(f, c[j..])| == 1 + |PartitionBy(f, c[j + 1..])|
  {
    PartitionByFrom(f, c, j, j + 1);
  }

  /** `PartitionByFrom` for a group of two items. */
  lemma GroupOfTwo<T, K>(f: T -> K, c: seq<T>, j: nat)
    requires j + 1 < |c| && f(c[j + 1]) == f(c[j])
    requires j + 2 < |c| ==> f(c[j + 2]) != f(c[j])
    ensures |PartitionBy(f, c[j..])| == 1 + |PartitionBy(f, c[j + 2..])|
  {
    PartitionByFrom(f, c, j, j + 2);
  }

  /** `PartitionByFrom` for a group of three items. */
  lemma GroupOfThree<T, K>(f: T -> K, c: seq<T>, j: nat)
    requires j + 2 < |c| && f(c[j + 1]) == f(c[j]) && f(c[j + 2]) == f(c[j])
    requires j + 3 < |c| ==> f(c[j + 3]) != f(c[j])
    ensures |PartitionBy(f, c[j..])| == 1 + |PartitionBy(f, c[j + 3..])|
  {
    PartitionByFrom(f, c, j, j + 3);
  }

  /** `partitionAll`: chunks of `take(n, ...)` starting every `step`
      elements, until the collection is exhausted. */
  function PartitionAll<T>(n: int, step: int, coll: seq<T>): seq<seq<T>>
    requires step >= 1 || coll == []
    decreases |coll|
  {
    if 0 == |coll| then []
    else ConcatLists([Prefix(n, coll)], PartitionAll(n, step, Suffix(step, coll)))
  }

  /** `partitionAll` yields ceil(|c| / step) chunks: the least count whose
      chunk starts, `step` apart, cover the whole collection. */
  lemma {:induction false} PartitionAllCount<T>(n: int, step: int, c: seq<T>)
    requires step >= 1
    ensures (|PartitionAll(n, step, c)| - 1) * step < |c| <= |PartitionAll(n, step, c)| * step
    decreases |c|
  {
    if c != [] {
      var rest := Suffix(step, c);
      PartitionAllCount(n, step, rest);
      var m := |PartitionAll(n, step, rest)|;
      assert |PartitionAll(n, step, c)| == m + 1;
      MulSucc(m, step);
      if |c| <= step {
        assert rest == [] && m == 0;
      } else {
        assert |rest| == |c| - step;
      }
    }
  }

  /** Multiplying by `k` is multiplying by `k - 1` and adding once more. */
  lemma MulPred(k: nat, step: nat)
    ensures k * step == (k - 1) * step + step
    ensures k == 0 ==> k * step == 0
    ensures k >= 1 ==> (k - 1) * step >= 0
  {
  }

  /** Multiplying by `m + 1` is multiplying by `m` and adding once more. */
  lemma MulSucc(m: int, step: int)
    ensures (m + 1) * step == m * step + step
  {
  }

  /** Chunk `k` of `partitionAll` is `take(n, drop(k * step, c))`. */
  lemma {:induction false} PartitionAllChunk<T>(n: int, step: int, c: seq<T>, k: nat)
    requires step >= 1
    requires k < |PartitionAll(n, step, c)|
    ensures PartitionAll(n, step, c)[k] == Prefix(n, Suffix(k * step, c))
    decreases |c|
  {
    var rest := Suffix(step, c);
    var tail := PartitionAll(n, step, rest);
    PartitionAllCons(n, step, c);
    MulPred(k, step);
    if k == 0 {
      assert Suffix(0, c) == c;
    } else {
      var before := (k - 1) * step;
      PartitionAllChunk(n, step, rest, k - 1);
      assert tail[k - 1] == Prefix(n, Suffix(before, rest));
      SuffixSuffix(before, step, c);
    }
  }

  /** A non-empty collection is chunked into `take(n, coll)` followed by the
      chunks of what comes `step` elements later. */
  lemma PartitionAllCons<T>(n: int, step: int, c: seq<T>)
    requires step >= 1 && c != []
    ensures PartitionAll(n, step, c) == [Prefix(n, c)] + PartitionAll(n, step, Suffix(step, c))
  {
  }

  /** `partitionN`: non-overlapping chunks of `n`. */
  function PartitionN<T>(n: int, coll: seq<T>): seq<seq<T>>
    requires n >= 1 || coll == []
  {
    PartitionAll(n, n, coll)
  }

  /** The chunks of `partitionN` concatenate back to the collection. */
  lemma {:induction false} PartitionNFlatten<T>(n: int, c: seq<T>)
    requires n >= 1
    ensures Flatten(PartitionN(n, c)) == c
    decreases |c|
  {
    if c != [] {
      PartitionNFlatten(n, Suffix(n, c));
      var r := PartitionN(n, c);
      assert r == [Prefix(n, c)] + PartitionN(n, Suffix(n, c));
      assert r[1..] == PartitionN(n, Suffix(n, c));
      TakeDropSplit(n, c);
    }
  }
}
