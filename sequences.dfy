/**
 * The sequence machinery the grouping code leans on: JavaScript's stable
 * `Array.prototype.sort` with a numeric comparator, picking elements by
 * index, and runs of equal consecutive keys ("the same day", "the same hour").
 */
module Sequences {

  predicate SortedBy<T>(s: seq<T>, key: T -> int) {
    forall i, j :: 0 <= i < j < |s| ==> key(s[i]) <= key(s[j])
  }

  predicate StrictlySortedBy<T>(s: seq<T>, key: T -> int) {
    forall i, j :: 0 <= i < j < |s| ==> key(s[i]) < key(s[j])
  }

  /** Inserts `x` after every element whose key is not larger than its own. */
  function InsertBy<T>(x: T, s: seq<T>, key: T -> int): (r: seq<T>)
    ensures |r| == |s| + 1
  {
    if s == [] || key(x) < key(s[0]) then [x] + s
    else [s[0]] + InsertBy(x, s[1..], key)
  }

  /** Inserting adds `x` to the elements. */
  lemma {:induction false} InsertPerm<T>(x: T, s: seq<T>, key: T -> int)
    ensures multiset(InsertBy(x, s, key)) == multiset(s) + multiset{x}
    decreases |s|
  {
    if s != [] && key(s[0]) <= key(x) {
      InsertPerm(x, s[1..], key);
      assert s == [s[0]] + s[1..];
    }
  }

  /** Inserting keeps a sorted sequence sorted. */
  lemma {:induction false} InsertSorted<T>(x: T, s: seq<T>, key: T -> int)
    requires SortedBy(s, key)
    ensures SortedBy(InsertBy(x, s, key), key)
    decreases |s|
  {
    if s == [] || key(x) < key(s[0]) {
      ConsSorted(x, s, key);
    } else {
      var rest := InsertBy(x, s[1..], key);
      InsertSorted(x, s[1..], key);
      InsertPerm(x, s[1..], key);
      InsertedAbove(x, s, key, rest);
      ConsSorted(s[0], rest, key);
    }
  }

  /** A head not above the first key of a sorted sequence keeps it sorted. */
  lemma ConsSorted<T>(h: T, s: seq<T>, key: T -> int)
    requires s == [] || key(h) <= key(s[0])
    ensures SortedBy(s, key) ==> SortedBy([h] + s, key)
  {
    if SortedBy(s, key) {
      var t := [h] + s;
      forall i, j | 0 <= i < j < |t|
        ensures key(t[i]) <= key(t[j])
      {
        if i == 0 {
          assert t[j] == s[j - 1];
          assert key(s[0]) <= key(s[j - 1]);
        } else {
          assert t[i] == s[i - 1] && t[j] == s[j - 1];
        }
      }
    }
  }

  /** After inserting `x` into the tail of a sorted `s`, whose head is not above `x`, the result starts no lower than the head. */
  lemma InsertedAbove<T>(x: T, s: seq<T>, key: T -> int, rest: seq<T>)
    requires s != [] && SortedBy(s, key) && key(s[0]) <= key(x)
    requires multiset(rest) == multiset(s[1..]) + multiset{x}
    requires SortedBy(rest, key)
    ensures rest == [] || key(s[0]) <= key(rest[0])
  {
    if rest != [] {
      var y := rest[0];
      assert y in multiset(rest);
      if y != x {
        assert y in multiset(s[1..]);
        var k :| 0 <= k < |s[1..]| && s[1..][k] == y;
        assert s[k + 1] == y;
      }
    }
  }

  /**
   * The result of a stable sort: ordered by `key`, a permutation of `s`, and
   * elements with equal keys keep their order (each element is inserted after
   * the equal ones already placed).
   */
  function SortBy<T>(s: seq<T>, key: T -> int): (r: seq<T>)
    ensures |r| == |s|
  {
    if s == [] then []
    else
      InsertBy(s[|s| - 1], SortBy(s[..|s| - 1], key), key)
  }

  /** The sort is ordered by `key` and a permutation of `s`. */
  lemma {:induction false} SortByFacts<T>(s: seq<T>, key: T -> int)
    ensures multiset(SortBy(s, key)) == multiset(s)
    ensures SortedBy(SortBy(s, key), key)
    decreases |s|
  {
    if s != [] {
      var init := s[..|s| - 1];
      assert s == init + [s[|s| - 1]];
      SortByFacts(init, key);
      InsertPerm(s[|s| - 1], SortBy(init, key), key);
      InsertSorted(s[|s| - 1], SortBy(init, key), key);
    }
  }

  function Reverse<T>(s: seq<T>): (r: seq<T>)
    ensures |r| == |s|
    ensures forall i :: 0 <= i < |s| ==> r[i] == s[|s| - 1 - i]
  {
    seq(|s|, i requires 0 <= i < |s| => s[|s| - 1 - i])
  }

  /** Sorting a sequence already strictly ordered the other way round reverses it. */
  lemma {:induction false} SortOfDescending<T>(s: seq<T>, key: T -> int)
    requires forall i, j :: 0 <= i < j < |s| ==> key(s[i]) > key(s[j])
    ensures SortBy(s, key) == Reverse(s)
    decreases |s|
  {
    if s != [] {
      var init := s[..|s| - 1];
      var last := s[|s| - 1];
      SortOfDescending(init, key);
      assert SortBy(s, key) == InsertBy(last, Reverse(init), key);
      ReverseInit(s);
      if |s| > 1 {
        assert key(last) < key(Reverse(init)[0]);
      }
    }
  }

  lemma ReverseInit<T>(s: seq<T>)
    requires s != []
    ensures Reverse(s) == [s[|s| - 1]] + Reverse(s[..|s| - 1])
  {
    var r, t := Reverse(s), [s[|s| - 1]] + Reverse(s[..|s| - 1]);
    forall i | 0 <= i < |s|
      ensures r[i] == t[i]
    {
      if i > 0 {
        assert t[i] == Reverse(s[..|s| - 1])[i - 1];
      }
    }
  }

  lemma ReverseTwice<T>(s: seq<T>)
    ensures Reverse(Reverse(s)) == s
  {
  }

  /** Sorting a sequence that is already ordered changes nothing. */
  lemma {:induction false} SortOfSorted<T>(s: seq<T>, key: T -> int)
    requires SortedBy(s, key)
    ensures SortBy(s, key) == s
    decreases |s|
  {
    if s != [] {
      var init := s[..|s| - 1];
      SortedInit(s, init, key);
      SortOfSorted(init, key);
      InsertLast(s[|s| - 1], init, key);
      assert init + [s[|s| - 1]] == s;
    }
  }

  /** All but the last element of a sorted sequence are sorted and not above the last. */
  lemma SortedInit<T>(s: seq<T>, init: seq<T>, key: T -> int)
    requires s != [] && SortedBy(s, key) && init == s[..|s| - 1]
    ensures SortedBy(init, key)
    ensures forall i :: 0 <= i < |init| ==> key(init[i]) <= key(s[|s| - 1])
  {
  }

  lemma {:induction false} InsertLast<T>(x: T, s: seq<T>, key: T -> int)
    requires forall i :: 0 <= i < |s| ==> key(s[i]) <= key(x)
    ensures InsertBy(x, s, key) == s + [x]
    decreases |s|
  {
    if s != [] {
      var t := s[1..];
      assert forall i :: 0 <= i < |t| ==> t[i] == s[i + 1];
      InsertLast(x, t, key);
      assert [s[0]] + (t + [x]) == s + [x];
    }
  }

  /** Indices are in range of `s`. */
  predicate Indices(idx: seq<nat>, n: nat) {
    forall k :: 0 <= k < |idx| ==> idx[k] < n
  }

  /** The elements of `s` at the positions `idx`, in that order. */
  function Pick<T>(s: seq<T>, idx: seq<nat>): (r: seq<T>)
    requires Indices(idx, |s|)
    ensures |r| == |idx|
    ensures forall k :: 0 <= k < |idx| ==> r[k] == s[idx[k]]
  {
    seq(|idx|, k requires 0 <= k < |idx| => s[idx[k]])
  }

  /** `Array.prototype.filter`: the elements of `s` that satisfy `p`, in their order. */
  function Filter<T>(s: seq<T>, p: T -> bool): (r: seq<T>)
    ensures |r| <= |s|
    ensures forall k :: 0 <= k < |r| ==> r[k] in s && p(r[k])
    ensures forall i :: 0 <= i < |s| && p(s[i]) ==> s[i] in r
  {
    if s == [] then []
    else
      (if p(s[0]) then [s[0]] else []) + Filter(s[1..], p)
  }

  /** Filtering keeps every element that passes as often as it occurs. */
  lemma {:induction false} FilterCount<T>(s: seq<T>, p: T -> bool, x: T)
    ensures multiset(Filter(s, p))[x] == if p(x) then multiset(s)[x] else 0
    decreases |s|
  {
    if s != [] {
      FilterCount(s[1..], p, x);
      ConsCount(s, p, x);
    }
  }

  lemma ConsCount<T>(s: seq<T>, p: T -> bool, x: T)
    requires s != []
    ensures multiset(s)[x] == (if s[0] == x then 1 else 0) + multiset(s[1..])[x]
    ensures multiset(Filter(s, p))[x] == (if p(s[0]) && s[0] == x then 1 else 0) + multiset(Filter(s[1..], p))[x]
  {
    assert s == [s[0]] + s[1..];
  }

  /** Filters of two orderings of the same elements are orderings of each other. */
  lemma FilterPerm<T>(s: seq<T>, t: seq<T>, p: T -> bool)
    requires multiset(s) == multiset(t)
    ensures multiset(Filter(s, p)) == multiset(Filter(t, p))
  {
    forall x
      ensures multiset(Filter(s, p))[x] == multiset(Filter(t, p))[x]
    {
      FilterCount(s, p, x);
      FilterCount(t, p, x);
    }
  }

  lemma {:induction false} FilterNone<T>(s: seq<T>, p: T -> bool)
    requires forall i :: 0 <= i < |s| ==> !p(s[i])
    ensures Filter(s, p) == []
    decreases |s|
  {
    if s != [] {
      FilterNone(s[1..], p);
    }
  }

  /** When exactly the elements at `lo..hi` pass, the filter is that slice. */
  lemma {:induction false} FilterSlice<T>(s: seq<T>, p: T -> bool, lo: nat, hi: nat)
    requires lo <= hi <= |s|
    requires forall i :: 0 <= i < |s| ==> (p(s[i]) <==> lo <= i < hi)
    ensures Filter(s, p) == s[lo..hi]
    decreases |s|
  {
    if s == [] {
    } else if hi == 0 {
      FilterNone(s, p);
    } else {
      var lo', hi' := if lo == 0 then 0 else lo - 1, hi - 1;
      PassTail(s, p, lo, hi, lo', hi');
      FilterSlice(s[1..], p, lo', hi');
      SliceTail(s, lo, hi, lo', hi');
    }
  }

  /** The window of passing positions moves down by one in the tail. */
  lemma PassTail<T>(s: seq<T>, p: T -> bool, lo: nat, hi: nat, lo': nat, hi': nat)
    requires 0 < hi <= |s| && lo <= hi && hi' == hi - 1 && lo' == if lo == 0 then 0 else lo - 1
    requires forall i :: 0 <= i < |s| ==> (p(s[i]) <==> lo <= i < hi)
    ensures forall i :: 0 <= i < |s[1..]| ==> (p(s[1..][i]) <==> lo' <= i < hi')
  {
    forall i | 0 <= i < |s[1..]|
      ensures p(s[1..][i]) <==> lo' <= i < hi'
    {
      assert s[1..][i] == s[i + 1];
    }
  }

  /** The slice of `s` is the head, when it is in the slice, and then the moved-down slice of the tail. */
  lemma SliceTail<T>(s: seq<T>, lo: nat, hi: nat, lo': nat, hi': nat)
    requires 0 < hi <= |s| && lo <= hi && hi' == hi - 1 && lo' == if lo == 0 then 0 else lo - 1
    ensures s[lo..hi] == (if lo == 0 then [s[0]] else []) + s[1..][lo'..hi']
  {
    if lo == 0 {
      assert s[1..][0..hi'] == s[1..hi];
      assert s[0..hi] == [s[0]] + s[1..hi];
    } else {
      assert s[lo..hi] == s[1..][lo'..hi'];
    }
  }

  /** The sum of `f` over the elements of `s`. */
  function SumBy<T>(s: seq<T>, f: T -> real): real {
    if s == [] then 0.0 else SumBy(s[..|s| - 1], f) + f(s[|s| - 1])
  }

  lemma {:induction false} SumByAppend<T>(a: seq<T>, b: seq<T>, f: T -> real)
    ensures SumBy(a + b, f) == SumBy(a, f) + SumBy(b, f)
    decreases |b|
  {
    if b == [] {
      assert a + b == a;
    } else {
      SumByAppend(a, b[..|b| - 1], f);
      assert (a + b)[..|a + b| - 1] == a + b[..|b| - 1];
    }
  }

  /** A sum does not depend on the order of its terms. */
  lemma {:induction false} SumByPerm<T>(a: seq<T>, b: seq<T>, f: T -> real)
    requires multiset(a) == multiset(b)
    ensures SumBy(a, f) == SumBy(b, f)
    decreases |a|
  {
    if a != [] {
      var n := |a| - 1;
      DropLast(a);
      assert a[n] in multiset(b);
      var i :| 0 <= i < |b| && b[i] == a[n];
      DropAt(b, i, f);
      SumByPerm(a[..n], b[..i] + b[i + 1..], f);
    }
  }

  lemma DropLast<T>(a: seq<T>)
    requires a != []
    ensures multiset(a[..|a| - 1]) == multiset(a) - multiset{a[|a| - 1]}
    ensures a[|a| - 1] in multiset(a)
  {
    assert a == a[..|a| - 1] + [a[|a| - 1]];
  }

  /** Taking out the element at `i` removes one copy of it and its term from the sum. */
  lemma DropAt<T>(b: seq<T>, i: nat, f: T -> real)
    requires i < |b|
    ensures multiset(b[..i] + b[i + 1..]) == multiset(b) - multiset{b[i]}
    ensures SumBy(b, f) == SumBy(b[..i] + b[i + 1..], f) + f(b[i])
  {
    SplitAt(b, i);
    assert multiset(b) == multiset(b[..i] + [b[i]] + b[i + 1..]);
    SumAround(b[..i], b[i], b[i + 1..], f);
  }

  lemma SplitAt<T>(b: seq<T>, i: nat)
    requires i < |b|
    ensures b == b[..i] + [b[i]] + b[i + 1..]
  {
    assert b[i..] == [b[i]] + b[i + 1..];
    assert b == b[..i] + b[i..];
  }

  /** Appending to a sequence whose last element is `x` is appending to its front `x` first. */
  lemma AppendAfterLast<T>(s: seq<T>, x: T, rest: seq<T>)
    requires s != [] && s[|s| - 1] == x
    ensures s + rest == s[..|s| - 1] + ([x] + rest)
  {
    assert s == s[..|s| - 1] + [x];
  }

  lemma SumAround<T>(front: seq<T>, x: T, back: seq<T>, f: T -> real)
    ensures SumBy(front + [x] + back, f) == SumBy(front + back, f) + f(x)
  {
    SumByAppend(front, back, f);
    SumByAppend(front + [x], back, f);
    SumByAppend(front, [x], f);
    assert SumBy([x], f) == f(x) by {
      assert [x][..0] == [];
    }
  }

  function Sum(s: seq<real>): real {
    if s == [] then 0.0 else Sum(s[..|s| - 1]) + s[|s| - 1]
  }

  lemma {:induction false} SumAppend(a: seq<real>, b: seq<real>)
    ensures Sum(a + b) == Sum(a) + Sum(b)
    decreases |b|
  {
    if b == [] {
      assert a + b == a;
    } else {
      SumAppend(a, b[..|b| - 1]);
      assert (a + b)[..|a + b| - 1] == a + b[..|b| - 1];
    }
  }

  lemma SumSnoc(s: seq<real>, lo: nat, hi: nat)
    requires lo <= hi < |s|
    ensures Sum(s[lo..hi + 1]) == Sum(s[lo..hi]) + s[hi]
  {
    assert s[lo..hi + 1][..hi - lo] == s[lo..hi];
  }

  lemma SumOne(s: seq<real>, i: nat)
    requires i < |s|
    ensures Sum(s[i..i + 1]) == s[i]
  {
    assert s[i..i + 1][..0] == [];
  }

  lemma PickSnoc<T>(s: seq<T>, idx: seq<nat>, i: nat)
    requires Indices(idx, |s|) && i < |s|
    ensures Pick(s, idx + [i]) == Pick(s, idx) + [s[i]]
  {
  }

  // ---------------------------------------------------------------------------
  // Runs of equal consecutive keys

  /** Position `i` opens a run: it is first, or its key differs from the one before. */
  predicate IsStart(keys: seq<int>, i: nat)
    requires i < |keys|
  {
    i == 0 || keys[i] != keys[i - 1]
  }

  /** The run openers below `n`, in increasing order. */
  function StartsBelow(keys: seq<int>, n: nat): (r: seq<nat>)
    requires n <= |keys|
    ensures Indices(r, n)
  {
    if n == 0 then []
    else
      var r := StartsBelow(keys, n - 1);
      if IsStart(keys, n - 1) then r + [n - 1] else r
  }

  /** The openers below `n` are exactly the positions below `n` that open a run, in increasing order. */
  lemma {:induction false} StartsBelowFacts(keys: seq<int>, n: nat)
    requires n <= |keys|
    ensures var r := StartsBelow(keys, n);
      && (forall k :: 0 <= k < |r| ==> IsStart(keys, r[k]))
      && (forall k, l :: 0 <= k < l < |r| ==> r[k] < r[l])
      && (forall i :: 0 <= i < n && IsStart(keys, i) ==> i in r)
    decreases n
  {
    if n > 0 {
      StartsBelowFacts(keys, n - 1);
    }
  }

  lemma StartsStep(keys: seq<int>, i: nat)
    requires i < |keys|
    ensures StartsBelow(keys, i + 1) == StartsBelow(keys, i) + (if IsStart(keys, i) then [i] else [])
  {
  }

  /** When every key differs from the one before, every position below `n` opens a run. */
  lemma {:induction false} AllStartsBelow(keys: seq<int>, n: nat)
    requires n <= |keys|
    requires forall i :: 0 < i < |keys| ==> keys[i] != keys[i - 1]
    ensures |StartsBelow(keys, n)| == n
    ensures forall k :: 0 <= k < n ==> StartsBelow(keys, n)[k] == k
    decreases n
  {
    if n > 0 {
      AllStartsBelow(keys, n - 1);
    }
  }

  /** Picking every position in order gives the sequence back. */
  lemma PickAll<T>(s: seq<T>, idx: seq<nat>)
    requires |idx| == |s| && forall k :: 0 <= k < |s| ==> idx[k] == k
    ensures Pick(s, idx) == s
  {
  }

  function Starts(keys: seq<int>): (r: seq<nat>)
    ensures Indices(r, |keys|)
  {
    StartsBelow(keys, |keys|)
  }

  /** Where the run that contains position `from` and began at `s` ends (exclusive). */
  function RunEndFrom(keys: seq<int>, s: nat, from: nat): (e: nat)
    requires s < |keys| && s <= from <= |keys|
    ensures from <= e <= |keys|
    decreases |keys| - from
  {
    if from == |keys| || keys[from] != keys[s] then from
    else RunEndFrom(keys, s, from + 1)
  }

  /** The end (exclusive) of the run of equal keys that starts at `s`. */
  function RunEnd(keys: seq<int>, s: nat): (e: nat)
    requires s < |keys|
    ensures s < e <= |keys|
  {
    RunEndFrom(keys, s, s + 1)
  }

  /** A run holds equal keys and stops at a different key or at the end. */
  lemma {:induction false} RunEndFromFacts(keys: seq<int>, s: nat, from: nat)
    requires s < |keys| && s <= from <= |keys|
    ensures var e := RunEndFrom(keys, s, from);
      && (e < |keys| ==> keys[e] != keys[s])
      && (forall j :: from <= j < e ==> keys[j] == keys[s])
    decreases |keys| - from
  {
    if from < |keys| && keys[from] == keys[s] {
      RunEndFromFacts(keys, s, from + 1);
    }
  }

  lemma RunEndFacts(keys: seq<int>, s: nat)
    requires s < |keys|
    ensures var e := RunEnd(keys, s);
      && (e < |keys| ==> keys[e] != keys[s])
      && (forall j :: s <= j < e ==> keys[j] == keys[s])
  {
    RunEndFromFacts(keys, s, s + 1);
  }

  /** A run end is determined by its contents: equal keys up to `e`, a different key (or the end) at `e`. */
  lemma {:induction false} RunEndIs(keys: seq<int>, s: nat, from: nat, e: nat)
    requires s < |keys| && s <= from <= e <= |keys|
    requires forall j :: from <= j < e ==> keys[j] == keys[s]
    requires e < |keys| ==> keys[e] != keys[s]
    ensures RunEndFrom(keys, s, from) == e
    decreases e - from
  {
    if from < e {
      RunEndIs(keys, s, from + 1, e);
    }
  }

  predicate NonIncreasing(keys: seq<int>) {
    forall i, j :: 0 <= i < j < |keys| ==> keys[i] >= keys[j]
  }

  predicate NonDecreasing(keys: seq<int>) {
    forall i, j :: 0 <= i < j < |keys| ==> keys[i] <= keys[j]
  }

  /**
   * In a monotone key sequence the run openers carry pairwise different keys,
   * and every position shares its key with exactly one opener: the last one
   * not after it.
   */
  lemma StartsOfMonotone(keys: seq<int>)
    requires NonIncreasing(keys) || NonDecreasing(keys)
    ensures var r := Starts(keys);
      forall k, l :: 0 <= k < l < |r| ==> keys[r[k]] != keys[r[l]]
  {
    var r := Starts(keys);
    StartsBelowFacts(keys, |keys|);
    assert r == StartsBelow(keys, |keys|);
    forall k, l | 0 <= k < l < |r|
      ensures keys[r[k]] != keys[r[l]]
    {
      var a, b := r[k], r[l];
      assert a < b && IsStart(keys, b);
      assert keys[b - 1] != keys[b];
      if NonIncreasing(keys) {
        assert keys[a] >= keys[b - 1];
        assert keys[b - 1] > keys[b];
      } else {
        assert keys[a] <= keys[b - 1];
        assert keys[b - 1] < keys[b];
      }
    }
  }

  /** In a non-decreasing key sequence the openers carry strictly increasing keys. */
  lemma OpenersAscending(keys: seq<int>)
    requires NonDecreasing(keys)
    ensures var r := Starts(keys);
      forall k, l :: 0 <= k < l < |r| ==> keys[r[k]] < keys[r[l]]
  {
    var r := Starts(keys);
    StartsOfMonotone(keys);
    StartsBelowFacts(keys, |keys|);
    assert r == StartsBelow(keys, |keys|);
    forall k, l | 0 <= k < l < |r|
      ensures keys[r[k]] < keys[r[l]]
    {
      assert r[k] < r[l];
      assert keys[r[k]] <= keys[r[l]];
    }
  }

  /** In a non-increasing key sequence the openers carry strictly decreasing keys. */
  lemma OpenersDescending(keys: seq<int>)
    requires NonIncreasing(keys)
    ensures var r := Starts(keys);
      forall k, l :: 0 <= k < l < |r| ==> keys[r[k]] > keys[r[l]]
  {
    var r := Starts(keys);
    StartsOfMonotone(keys);
    StartsBelowFacts(keys, |keys|);
    assert r == StartsBelow(keys, |keys|);
    forall k, l | 0 <= k < l < |r|
      ensures keys[r[k]] > keys[r[l]]
    {
      assert r[k] < r[l];
      assert keys[r[k]] >= keys[r[l]];
    }
  }

  /** In a monotone key sequence, the opener of a run precedes every position with its key. */
  lemma OpenerFirst(keys: seq<int>, s: nat, j: nat)
    requires NonIncreasing(keys) || NonDecreasing(keys)
    requires s < |keys| && j < |keys| && IsStart(keys, s) && keys[j] == keys[s]
    ensures s <= j < RunEnd(keys, s)
  {
    RunEndFacts(keys, s);
  }

  /** Each entry of the openers opens a run. */
  lemma OpenerAt(keys: seq<int>, k: nat)
    requires k < |Starts(keys)|
    ensures Starts(keys)[k] < |keys| && IsStart(keys, Starts(keys)[k])
  {
    StartsBelowFacts(keys, |keys|);
    assert Starts(keys) == StartsBelow(keys, |keys|);
  }

  /** Every position lies in the run of some opener: the `k`-th. */
  lemma {:induction false} HasOpener(keys: seq<int>, j: nat) returns (k: nat)
    requires j < |keys|
    ensures k < |Starts(keys)| && Starts(keys)[k] <= j && keys[Starts(keys)[k]] == keys[j]
    decreases j
  {
    if IsStart(keys, j) {
      StartsBelowFacts(keys, |keys|);
      assert j in Starts(keys);
      k :| 0 <= k < |Starts(keys)| && Starts(keys)[k] == j;
    } else {
      k := HasOpener(keys, j - 1);
    }
  }
}
