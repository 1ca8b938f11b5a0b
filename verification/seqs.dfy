/** Sequence helpers shared by every stage of the dashboard engine: order-preserving
    filtering (the model of a boolean row mask), counting, sorting by an integer key,
    and the code-point order on strings with which Python sorts option lists. */
module Seqs {

  /** The elements of `s` that satisfy `p`, in their original order
      (what indexing a data frame by a boolean mask produces). */
  function Filter<T(!new)>(s: seq<T>, p: T -> bool): (r: seq<T>)
    ensures |r| <= |s|
    ensures forall x :: x in r <==> x in s && p(x)
  {
    if |s| == 0 then []
    else
      assert s == [s[0]] + s[1..];
      (if p(s[0]) then [s[0]] else []) + Filter(s[1..], p)
  }

  /** Number of elements of `s` that satisfy `p`. */
  function Count<T(!new)>(s: seq<T>, p: T -> bool): nat
  {
    |Filter(s, p)|
  }

  lemma {:induction false} FilterConcat<T(!new)>(a: seq<T>, b: seq<T>, p: T -> bool)
    ensures Filter(a + b, p) == Filter(a, p) + Filter(b, p)
  {
    if |a| == 0 {
      assert a + b == b;
    } else {
      assert (a + b)[0] == a[0];
      assert (a + b)[1..] == a[1..] + b;
      FilterConcat(a[1..], b, p);
    }
  }

  /** Extending a prefix by one element extends its filter by that element or by nothing. */
  lemma FilterPrefixStep<T(!new)>(s: seq<T>, i: int, p: T -> bool)
    requires 0 <= i < |s|
    ensures Filter(s[..i + 1], p) == Filter(s[..i], p) + (if p(s[i]) then [s[i]] else [])
  {
    assert s[..i + 1] == s[..i] + [s[i]];
    FilterConcat(s[..i], [s[i]], p);
  }

  /** Indexing by a boolean mask: the elements whose bit is set, for a mask that
      agrees with `p` element by element. */
  method ApplyMask<T(!new)>(s: seq<T>, mask: seq<bool>, p: T -> bool) returns (r: seq<T>)
    requires |mask| == |s|
    requires forall i :: 0 <= i < |s| ==> mask[i] == p(s[i])
    ensures r == Filter(s, p)
  {
    r := [];
    var i := 0;
    while i < |s|
      invariant 0 <= i <= |s|
      invariant r == Filter(s[..i], p)
    {
      FilterPrefixStep(s, i, p);
      if mask[i] {
        r := r + [s[i]];
      }
      i := i + 1;
    }
    assert s[..i] == s;
  }

  /** Permutations have the same elements. */
  lemma PermutationMembers<T>(a: seq<T>, b: seq<T>)
    requires multiset(a) == multiset(b)
    ensures forall x :: x in a <==> x in b
  {
    forall x ensures x in a <==> x in b {
      assert x in a <==> x in multiset(a);
      assert x in b <==> x in multiset(b);
    }
  }

  /** Two predicates that agree on every element select the same elements. */
  lemma {:induction false} FilterExt<T(!new)>(s: seq<T>, p: T -> bool, q: T -> bool)
    requires forall x :: x in s ==> p(x) == q(x)
    ensures Filter(s, p) == Filter(s, q)
  {
    if |s| > 0 {
      assert forall x :: x in s[1..] ==> x in s;
      FilterExt(s[1..], p, q);
    }
  }

  /** Filtering twice is filtering once by the conjunction. */
  lemma {:induction false} FilterFilter<T(!new)>(s: seq<T>, p: T -> bool, q: T -> bool, pq: T -> bool)
    requires forall x :: pq(x) == (p(x) && q(x))
    ensures Filter(Filter(s, p), q) == Filter(s, pq)
  {
    if |s| > 0 {
      FilterFilter(s[1..], p, q, pq);
      var head := if p(s[0]) then [s[0]] else [];
      FilterConcat(head, Filter(s[1..], p), q);
    }
  }

  /** A filter that every element passes changes nothing. */
  lemma {:induction false} FilterKeepsAll<T(!new)>(s: seq<T>, p: T -> bool)
    requires forall x :: x in s ==> p(x)
    ensures Filter(s, p) == s
  {
    if |s| > 0 {
      assert forall x :: x in s[1..] ==> x in s;
      FilterKeepsAll(s[1..], p);
      assert s == [s[0]] + s[1..];
    }
  }

  /** A filter that rejects every element yields nothing. */
  lemma {:induction false} FilterNone<T(!new)>(s: seq<T>, p: T -> bool)
    requires forall x :: x in s ==> !p(x)
    ensures Filter(s, p) == []
  {
    if |s| > 0 {
      assert s[0] in s;
      FilterNone(s[1..], p);
    }
  }

  /** Counting the `q`-elements after a filter `p` that every `q`-element passes
      gives the same count as before the filter. */
  lemma CountAfterFilterKeeping<T(!new)>(s: seq<T>, p: T -> bool, q: T -> bool)
    requires forall x :: x in s && q(x) ==> p(x)
    ensures Count(Filter(s, p), q) == Count(s, q)
  {
    var pq := x => p(x) && q(x);
    FilterFilter(s, p, q, pq);
    FilterExt(s, pq, q);
  }

  /** Counting the `q`-elements after a filter `p` that no `q`-element passes gives 0. */
  lemma {:induction false} CountAfterFilterDropping<T(!new)>(s: seq<T>, p: T -> bool, q: T -> bool)
    requires forall x :: x in s && q(x) ==> !p(x)
    ensures Count(Filter(s, p), q) == 0
  {
    if |s| > 0 {
      assert forall x :: x in s[1..] ==> x in s;
      CountAfterFilterDropping(s[1..], p, q);
      var head := if p(s[0]) then [s[0]] else [];
      FilterConcat(head, Filter(s[1..], p), q);
    }
  }

  /** Replacing one element by another on the same side of `p` keeps the count. */
  lemma CountUpdate<T(!new)>(s: seq<T>, i: int, y: T, p: T -> bool)
    requires 0 <= i < |s|
    requires p(s[i]) == p(y)
    ensures Count(s[i := y], p) == Count(s, p)
  {
    var u := s[i := y];
    assert s == s[..i] + [s[i]] + s[i + 1..];
    assert u == s[..i] + [y] + s[i + 1..];
    FilterConcat(s[..i] + [s[i]], s[i + 1..], p);
    FilterConcat(s[..i], [s[i]], p);
    FilterConcat(s[..i] + [y], s[i + 1..], p);
    FilterConcat(s[..i], [y], p);
  }

  /** Replacing one element that `p` rejects by another that `p` rejects keeps the filter. */
  lemma FilterUpdateOutside<T(!new)>(s: seq<T>, i: int, y: T, p: T -> bool)
    requires 0 <= i < |s|
    requires !p(s[i]) && !p(y)
    ensures Filter(s[i := y], p) == Filter(s, p)
  {
    var u := s[i := y];
    assert s == s[..i] + [s[i]] + s[i + 1..];
    assert u == s[..i] + [y] + s[i + 1..];
    FilterConcat(s[..i] + [s[i]], s[i + 1..], p);
    FilterConcat(s[..i], [s[i]], p);
    FilterConcat(s[..i] + [y], s[i + 1..], p);
    FilterConcat(s[..i], [y], p);
  }

  /** Removing the element at `i` removes one occurrence of it from the multiset. */
  lemma MultisetRemoveAt<T>(b: seq<T>, i: int)
    requires 0 <= i < |b|
    ensures multiset(b[..i] + b[i + 1..]) == multiset(b) - multiset{b[i]}
  {
    assert b == b[..i] + [b[i]] + b[i + 1..];
    assert multiset(b) == multiset(b[..i]) + multiset{b[i]} + multiset(b[i + 1..]);
  }

  lemma MultisetTail<T>(a: seq<T>)
    requires |a| > 0
    ensures multiset(a[1..]) == multiset(a) - multiset{a[0]}
  {
    assert a == [a[0]] + a[1..];
  }

  /** A first element of `a` occurs somewhere in a permutation `b` of `a`, and the
      rest of `a` is a permutation of `b` without that occurrence. */
  lemma PermutationSplit<T>(a: seq<T>, b: seq<T>) returns (i: int)
    requires |a| > 0 && multiset(a) == multiset(b)
    ensures 0 <= i < |b| && b[i] == a[0]
    ensures multiset(a[1..]) == multiset(b[..i] + b[i + 1..])
  {
    assert a[0] in multiset(b);
    i :| 0 <= i < |b| && b[i] == a[0];
    MultisetRemoveAt(b, i);
    MultisetTail(a);
  }

  lemma CountRemoveAt<T(!new)>(b: seq<T>, i: int, p: T -> bool)
    requires 0 <= i < |b|
    ensures Count(b, p) == Count(b[..i] + b[i + 1..], p) + (if p(b[i]) then 1 else 0)
  {
    assert b == b[..i] + b[i..];
    assert b[i..][1..] == b[i + 1..];
    FilterConcat(b[..i], b[i..], p);
    FilterConcat(b[..i], b[i + 1..], p);
  }

  /** Counting does not depend on the order of the elements. */
  lemma {:induction false} CountPermutation<T(!new)>(a: seq<T>, b: seq<T>, p: T -> bool)
    requires multiset(a) == multiset(b)
    ensures Count(a, p) == Count(b, p)
    decreases |a|
  {
    if |a| > 0 {
      var i := PermutationSplit(a, b);
      CountPermutation(a[1..], b[..i] + b[i + 1..], p);
      CountRemoveAt(b, i, p);
      FilterConcat([a[0]], a[1..], p);
      assert a == [a[0]] + a[1..];
    } else {
      assert |b| == |multiset(b)| == 0;
    }
  }

  // ---------------------------------------------------------------------------
  // Sums.

  function Sum(s: seq<nat>): nat
  {
    if |s| == 0 then 0 else s[0] + Sum(s[1..])
  }

  lemma {:induction false} SumConcat(a: seq<nat>, b: seq<nat>)
    ensures Sum(a + b) == Sum(a) + Sum(b)
  {
    if |a| == 0 {
      assert a + b == b;
    } else {
      assert (a + b)[1..] == a[1..] + b;
      SumConcat(a[1..], b);
    }
  }

  lemma SumRemoveAt(b: seq<nat>, i: int)
    requires 0 <= i < |b|
    ensures Sum(b) == Sum(b[..i] + b[i + 1..]) + b[i]
  {
    assert b == b[..i] + b[i..];
    assert b[i..][1..] == b[i + 1..];
    SumConcat(b[..i], b[i..]);
    SumConcat(b[..i], b[i + 1..]);
  }

  /** A sum does not depend on the order of its terms. */
  lemma {:induction false} SumPermutation(a: seq<nat>, b: seq<nat>)
    requires multiset(a) == multiset(b)
    ensures Sum(a) == Sum(b)
    decreases |a|
  {
    if |a| > 0 {
      var i := PermutationSplit(a, b);
      SumPermutation(a[1..], b[..i] + b[i + 1..]);
      SumRemoveAt(b, i);
    } else {
      assert |b| == |multiset(b)| == 0;
    }
  }

  /** `f` of every element, added up. */
  function SumBy<T>(s: seq<T>, f: T -> int): int
  {
    if |s| == 0 then 0 else f(s[0]) + SumBy(s[1..], f)
  }

  lemma {:induction false} SumByConcat<T>(a: seq<T>, b: seq<T>, f: T -> int)
    ensures SumBy(a + b, f) == SumBy(a, f) + SumBy(b, f)
  {
    if |a| == 0 {
      assert a + b == b;
    } else {
      assert (a + b)[1..] == a[1..] + b;
      SumByConcat(a[1..], b, f);
    }
  }

  lemma SumByRemoveAt<T>(b: seq<T>, i: int, f: T -> int)
    requires 0 <= i < |b|
    ensures SumBy(b, f) == SumBy(b[..i] + b[i + 1..], f) + f(b[i])
  {
    assert b == b[..i] + b[i..];
    assert b[i..][1..] == b[i + 1..];
    SumByConcat(b[..i], b[i..], f);
    SumByConcat(b[..i], b[i + 1..], f);
  }

  /** Such a sum does not depend on the order of its terms either. */
  lemma {:induction false} SumByPermutation<T>(a: seq<T>, b: seq<T>, f: T -> int)
    requires multiset(a) == multiset(b)
    ensures SumBy(a, f) == SumBy(b, f)
    decreases |a|
  {
    if |a| > 0 {
      var i := PermutationSplit(a, b);
      SumByPermutation(a[1..], b[..i] + b[i + 1..], f);
      SumByRemoveAt(b, i, f);
    } else {
      assert |b| == |multiset(b)| == 0;
    }
  }

  /** The multiplicities in `m` of the listed `keys`, added up. */
  function SumOfCounts<T>(m: multiset<T>, keys: seq<T>): nat
  {
    if |keys| == 0 then 0 else m[keys[0]] + SumOfCounts(m, keys[1..])
  }

  lemma {:induction false} SumOfCountsRemove<T>(m: multiset<T>, keys: seq<T>, x: T)
    requires x in m
    requires forall i, j :: 0 <= i < j < |keys| ==> keys[i] != keys[j]
    ensures SumOfCounts(m, keys) == SumOfCounts(m - multiset{x}, keys) + (if x in keys then 1 else 0)
  {
    if |keys| > 0 {
      SumOfCountsRemove(m, keys[1..], x);
      assert x in keys <==> x == keys[0] || x in keys[1..];
      if x == keys[0] {
        assert x !in keys[1..];
      }
    }
  }

  /** When the keys list every element of `m` once, their counts add up to `|m|`. */
  lemma {:induction false} SizeIsSumOfCounts<T>(m: multiset<T>, keys: seq<T>)
    requires forall x :: x in m ==> x in keys
    requires forall i, j :: 0 <= i < j < |keys| ==> keys[i] != keys[j]
    ensures |m| == SumOfCounts(m, keys)
    decreases |m|
  {
    if |m| > 0 {
      var x :| x in m;
      SizeIsSumOfCounts(m - multiset{x}, keys);
      SumOfCountsRemove(m, keys, x);
    } else {
      SumOfCountsOfEmpty(m, keys);
    }
  }

  lemma {:induction false} SumOfCountsOfEmpty<T>(m: multiset<T>, keys: seq<T>)
    requires |m| == 0
    ensures SumOfCounts(m, keys) == 0
  {
    if |keys| > 0 {
      assert m[keys[0]] == 0;
      SumOfCountsOfEmpty(m, keys[1..]);
    }
  }

  // ---------------------------------------------------------------------------
  // Sorting by an integer key, largest first.

  ghost predicate NonIncreasing<T(!new)>(s: seq<T>, key: T -> int)
  {
    forall i, j :: 0 <= i < j < |s| ==> key(s[i]) >= key(s[j])
  }

  /** The identity on naturals, as a sort key. */
  function Id(n: nat): int
  {
    n
  }

  /** Inserts `x` into a sequence already ordered largest key first. */
  function InsertDesc<T(!new)>(x: T, s: seq<T>, key: T -> int): (r: seq<T>)
    requires NonIncreasing(s, key)
    ensures NonIncreasing(r, key)
    ensures multiset(r) == multiset{x} + multiset(s)
    ensures |r| == |s| + 1
  {
    if |s| == 0 || key(x) >= key(s[0]) then [x] + s
    else
      var rest := InsertDesc(x, s[1..], key);
      InsertDescBound(x, s, key, rest);
      assert s == [s[0]] + s[1..];
      [s[0]] + rest
  }

  /** Inserting below the head keeps every element at most the head. */
  lemma InsertDescBound<T(!new)>(x: T, s: seq<T>, key: T -> int, rest: seq<T>)
    requires |s| > 0 && key(x) < key(s[0]) && NonIncreasing(s, key)
    requires multiset(rest) == multiset{x} + multiset(s[1..])
    ensures forall j :: 0 <= j < |rest| ==> key(s[0]) >= key(rest[j])
  {
    forall j | 0 <= j < |rest|
      ensures key(s[0]) >= key(rest[j])
    {
      assert rest[j] in multiset(rest);
      if rest[j] != x {
        assert rest[j] in multiset(s[1..]);
        var k :| 0 <= k < |s[1..]| && s[1..][k] == rest[j];
        assert s[k + 1] == rest[j];
      }
    }
  }

  /** `s` ordered largest key first (insertion sort). */
  function SortDesc<T(!new)>(s: seq<T>, key: T -> int): (r: seq<T>)
    ensures NonIncreasing(r, key)
    ensures multiset(r) == multiset(s)
    ensures |r| == |s|
  {
    if |s| == 0 then []
    else
      assert s == [s[0]] + s[1..];
      InsertDesc(s[0], SortDesc(s[1..], key), key)
  }

  lemma HeadIsLargest(a: seq<nat>, y: nat)
    requires NonIncreasing(a, Id)
    requires y in multiset(a)
    ensures a[0] >= y
  {
    var k :| 0 <= k < |a| && a[k] == y;
    assert Id(a[0]) >= Id(a[k]) || k == 0;
  }

  /** A multiset of naturals has exactly one largest-first arrangement. */
  lemma {:induction false} NonIncreasingUnique(a: seq<nat>, b: seq<nat>)
    requires NonIncreasing(a, Id) && NonIncreasing(b, Id)
    requires multiset(a) == multiset(b)
    ensures a == b
  {
    assert |a| == |multiset(a)| == |multiset(b)| == |b|;
    if |a| > 0 {
      assert a[0] in multiset(a);
      assert b[0] in multiset(b);
      HeadIsLargest(a, b[0]);
      HeadIsLargest(b, a[0]);
      assert a[0] == b[0];
      assert a == [a[0]] + a[1..];
      assert b == [b[0]] + b[1..];
      assert multiset(a[1..]) == multiset(a) - multiset{a[0]};
      assert multiset(b[1..]) == multiset(b) - multiset{b[0]};
      assert NonIncreasing(a[1..], Id) && NonIncreasing(b[1..], Id);
      NonIncreasingUnique(a[1..], b[1..]);
    }
  }

  // ---------------------------------------------------------------------------
  // Sequences without repeats.

  ghost predicate Distinct<T>(s: seq<T>)
  {
    forall i, j :: 0 <= i < j < |s| ==> s[i] != s[j]
  }

  lemma {:induction false} DistinctAtMostOnce<T>(s: seq<T>, x: T)
    requires Distinct(s)
    ensures multiset(s)[x] <= 1
  {
    if |s| > 0 {
      assert s == [s[0]] + s[1..];
      assert forall k :: 0 <= k < |s| - 1 ==> s[1..][k] == s[k + 1] != s[0];
      DistinctAtMostOnce(s[1..], x);
    }
  }

  lemma AtMostOnceDistinct<T>(s: seq<T>)
    requires forall x :: multiset(s)[x] <= 1
    ensures Distinct(s)
  {
    forall i, j | 0 <= i < j < |s|
      ensures s[i] != s[j]
    {
      assert s == s[..j] + [s[j]] + s[j + 1..];
      assert multiset(s) == multiset(s[..j]) + multiset{s[j]} + multiset(s[j + 1..]);
      assert s[..j][i] == s[i];
      assert multiset(s[..j])[s[i]] >= 1;
      assert multiset(s)[s[j]] == multiset(s[..j])[s[j]] + 1 + multiset(s[j + 1..])[s[j]];
      assert multiset(s)[s[j]] <= 1;
    }
  }

  /** Reordering keeps a sequence free of repeats. */
  lemma DistinctPermutation<T>(a: seq<T>, b: seq<T>)
    requires multiset(a) == multiset(b)
    requires Distinct(a)
    ensures Distinct(b)
  {
    forall x
      ensures multiset(b)[x] <= 1
    {
      DistinctAtMostOnce(a, x);
    }
    AtMostOnceDistinct(b);
  }

  // ---------------------------------------------------------------------------
  // Python's order on strings: lexicographic by code point, a proper prefix first.

  predicate LexLess(a: string, b: string)
    decreases |a|
  {
    |b| > 0 && (|a| == 0 || a[0] < b[0] || (a[0] == b[0] && LexLess(a[1..], b[1..])))
  }

  lemma {:induction false} LexLessIrreflexive(a: string)
    ensures !LexLess(a, a)
  {
    if |a| > 0 {
      LexLessIrreflexive(a[1..]);
    }
  }

  lemma {:induction false} LexLessTransitive(a: string, b: string, c: string)
    requires LexLess(a, b) && LexLess(b, c)
    ensures LexLess(a, c)
  {
    if |a| > 0 && a[0] == b[0] && b[0] == c[0] {
      LexLessTransitive(a[1..], b[1..], c[1..]);
    }
  }

  lemma {:induction false} LexLessTotal(a: string, b: string)
    ensures a == b || LexLess(a, b) || LexLess(b, a)
  {
    if |a| > 0 && |b| > 0 && a[0] == b[0] {
      LexLessTotal(a[1..], b[1..]);
      if a[1..] == b[1..] {
        assert a == [a[0]] + a[1..] && b == [b[0]] + b[1..];
      }
    }
  }

  ghost predicate StrictlyAscending(s: seq<string>)
  {
    forall i, j :: 0 <= i < j < |s| ==> LexLess(s[i], s[j])
  }

  /** Adds `x` to an ascending list of distinct strings, unless it is already there. */
  function InsertAsc(x: string, s: seq<string>): (r: seq<string>)
    requires StrictlyAscending(s)
    ensures StrictlyAscending(r)
    ensures forall y :: y in r <==> y == x || y in s
  {
    if |s| == 0 then [x]
    else if x == s[0] then s
    else if LexLess(x, s[0]) then
      assert forall j :: 0 < j < |s| ==> LexLess(x, s[j]) by {
        forall j | 0 < j < |s| {
          LexLessTransitive(x, s[0], s[j]);
        }
      }
      [x] + s
    else
      LexLessTotal(x, s[0]);
      var rest := InsertAsc(x, s[1..]);
      assert forall y :: y in s[1..] ==> LexLess(s[0], y);
      [s[0]] + rest
  }

  /** The distinct elements of `s`, in ascending order: `sorted(set(s))`. */
  function SortedDistinct(s: seq<string>): (r: seq<string>)
    ensures StrictlyAscending(r)
    ensures forall y :: y in r <==> y in s
  {
    if |s| == 0 then []
    else
      assert s == [s[0]] + s[1..];
      InsertAsc(s[0], SortedDistinct(s[1..]))
  }

  /** An ascending list without repeats is determined by its elements. */
  lemma {:induction false} StrictlyAscendingUnique(a: seq<string>, b: seq<string>)
    requires StrictlyAscending(a) && StrictlyAscending(b)
    requires forall y :: y in a <==> y in b
    ensures a == b
  {
    if |a| > 0 {
      assert a[0] in a;
    }
    if |b| > 0 {
      assert b[0] in b;
    }
    if |a| > 0 && |b| > 0 {
      var j :| 0 <= j < |b| && b[j] == a[0];
      var k :| 0 <= k < |a| && a[k] == b[0];
      if j > 0 {
        assert LexLess(b[0], a[0]);
        assert k > 0 ==> LexLess(a[0], b[0]);
        if k > 0 {
          LexLessTransitive(a[0], b[0], a[0]);
        }
        LexLessIrreflexive(a[0]);
      }
      assert a[0] == b[0];
      forall y | y in a[1..]
        ensures y in b[1..]
      {
        var i :| 1 <= i < |a| && a[i] == y;
        assert LexLess(a[0], y);
        LexLessIrreflexive(a[0]);
        assert y in b && y != b[0];
        assert b == [b[0]] + b[1..];
      }
      forall y | y in b[1..]
        ensures y in a[1..]
      {
        var i :| 1 <= i < |b| && b[i] == y;
        assert LexLess(b[0], y);
        LexLessIrreflexive(b[0]);
        assert y in a && y != a[0];
        assert a == [a[0]] + a[1..];
      }
      StrictlyAscendingUnique(a[1..], b[1..]);
      assert a == [a[0]] + a[1..] && b == [b[0]] + b[1..];
    }
  }
}
