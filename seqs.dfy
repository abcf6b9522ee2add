/**
  The two array operations of the JavaScript standard library the storefront
  uses on whole lists: `Array.prototype.filter`, and `Array.prototype.sort`
  with a numeric comparator, which is stable (ECMAScript 2019 onward) and is
  therefore modelled by a stable insertion sort on a real-valued key.
*/
module Seqs {

  // ---------------------------------------------------------------------------
  // filter

  /** `s.filter(p)`: the elements satisfying `p`, in their original order. */
  function Filter<T(==)>(s: seq<T>, p: T -> bool): (r: seq<T>)
    ensures |r| <= |s|
  {
    if s == [] then [] else (if p(s[0]) then [s[0]] else []) + Filter(s[1..], p)
  }

  /** An element is kept exactly when it is there and passes the test. */
  lemma {:induction false} FilterMember<T>(s: seq<T>, p: T -> bool, x: T)
    ensures x in Filter(s, p) <==> x in s && p(x)
  {
    if s != [] {
      FilterMember(s[1..], p, x);
      assert s == [s[0]] + s[1..];
    }
  }

  lemma FilterMembers<T>(s: seq<T>, p: T -> bool)
    ensures forall x :: x in Filter(s, p) <==> x in s && p(x)
  {
    forall x
      ensures x in Filter(s, p) <==> x in s && p(x)
    {
      FilterMember(s, p, x);
    }
  }

  /** `r` can be obtained from `s` by deleting elements. */
  predicate IsSubsequence<T(==)>(r: seq<T>, s: seq<T>)
    decreases |s|
  {
    r == [] || (s != [] && ((r[0] == s[0] && IsSubsequence(r[1..], s[1..])) || IsSubsequence(r, s[1..])))
  }

  /** Filtering keeps the order of what it keeps. */
  lemma {:induction false} FilterIsSubsequence<T>(s: seq<T>, p: T -> bool)
    ensures IsSubsequence(Filter(s, p), s)
  {
    if s != [] {
      FilterIsSubsequence(s[1..], p);
      if p(s[0]) {
        assert Filter(s, p) == [s[0]] + Filter(s[1..], p);
        assert Filter(s, p)[1..] == Filter(s[1..], p);
      } else {
        assert Filter(s, p) == Filter(s[1..], p);
      }
    }
  }

  /** A filter that every element passes changes nothing. */
  lemma {:induction false} FilterAll<T>(s: seq<T>, p: T -> bool)
    requires forall x :: x in s ==> p(x)
    ensures Filter(s, p) == s
  {
    if s != [] {
      FilterAll(s[1..], p);
      assert [s[0]] + s[1..] == s;
    }
  }

  /** A filter that no element passes keeps nothing. */
  lemma {:induction false} FilterNone<T>(s: seq<T>, p: T -> bool)
    requires forall i :: 0 <= i < |s| ==> !p(s[i])
    ensures Filter(s, p) == []
  {
    if s != [] {
      FilterNone(s[1..], p);
    }
  }

  lemma {:induction false} FilterConcat<T>(a: seq<T>, b: seq<T>, p: T -> bool)
    ensures Filter(a + b, p) == Filter(a, p) + Filter(b, p)
  {
    if a != [] {
      FilterConcat(a[1..], b, p);
      assert (a + b)[1..] == a[1..] + b;
      assert (a + b)[0] == a[0];
    } else {
      assert a + b == b;
    }
  }

  /** A filter and its complement split the elements between them. */
  lemma {:induction false} FilterPartition<T>(s: seq<T>, p: T -> bool, q: T -> bool)
    requires forall x :: q(x) == !p(x)
    ensures multiset(Filter(s, p)) + multiset(Filter(s, q)) == multiset(s)
  {
    if s != [] {
      var x, t := s[0], s[1..];
      FilterPartition(t, p, q);
      assert s == [x] + t;
      assert multiset(s) == multiset{x} + multiset(t);
      if p(x) {
        assert Filter(s, p) == [x] + Filter(t, p);
        assert Filter(s, q) == Filter(t, q);
      } else {
        assert q(x);
        assert Filter(s, p) == Filter(t, p);
        assert Filter(s, q) == [x] + Filter(t, q);
      }
    }
  }

  // ---------------------------------------------------------------------------
  // distinct elements

  predicate Distinct<T(==)>(s: seq<T>) {
    forall i, j :: 0 <= i < j < |s| ==> s[i] != s[j]
  }

  lemma {:induction false} DistinctCount<T>(s: seq<T>, x: T)
    requires Distinct(s)
    ensures multiset(s)[x] <= 1
  {
    if s != [] {
      DistinctCount(s[1..], x);
      assert s == [s[0]] + s[1..];
      if s[0] == x {
        assert x !in s[1..];
      }
    }
  }

  lemma CountAtLeast<T>(s: seq<T>, i: nat, j: nat)
    requires i < j < |s|
    ensures multiset(s)[s[i]] >= if s[i] == s[j] then 2 else 1
  {
    assert s == s[..j] + [s[j]] + s[j + 1..];
    assert s[..j][i] == s[i];
  }

  /** A rearrangement of a sequence without repetitions has none either. */
  lemma DistinctPermutation<T>(a: seq<T>, b: seq<T>)
    requires multiset(a) == multiset(b) && Distinct(b)
    ensures Distinct(a)
  {
    forall i, j | 0 <= i < j < |a|
      ensures a[i] != a[j]
    {
      CountAtLeast(a, i, j);
      DistinctCount(b, a[i]);
    }
  }

  // ---------------------------------------------------------------------------
  // find

  /** `s.findIndex(p)`, with |s| standing for "not found". */
  function FindIndex<T>(s: seq<T>, p: T -> bool): (r: nat)
    ensures r <= |s|
    ensures r < |s| ==> p(s[r])
    ensures forall j :: 0 <= j < r ==> !p(s[j])
  {
    if s == [] then 0
    else if p(s[0]) then 0
    else 1 + FindIndex(s[1..], p)
  }
  /** `s.findIndex(p)` as the loop that scans `s`. */
  method Find<T>(s: seq<T>, p: T -> bool) returns (i: nat)
    ensures i == FindIndex(s, p)
  {
    i := 0;
    while i < |s| && !p(s[i])
      invariant i <= |s|
      invariant forall j :: 0 <= j < i ==> !p(s[j])
    {
      i := i + 1;
    }
  }

  /** Appending an element moves the first hit only when there was none. */
  lemma FindIndexAppend<T>(s: seq<T>, x: T, p: T -> bool)
    ensures FindIndex(s + [x], p) ==
      if FindIndex(s, p) < |s| then FindIndex(s, p) else if p(x) then |s| else |s| + 1
  {
    var t := s + [x];
    var r, r' := FindIndex(s, p), FindIndex(t, p);
    if r < |s| {
      assert t[r] == s[r];
    } else if p(x) {
      assert t[|s|] == x;
    }
  }



  // ---------------------------------------------------------------------------
  // Stable sort on a real-valued key

  predicate SortedBy<T>(s: seq<T>, key: T -> real) {
    forall i, j :: 0 <= i < j < |s| ==> key(s[i]) <= key(s[j])
  }

  /** The elements of `s` whose key is `k`, in their order in `s`. */
  function KeyClass<T>(s: seq<T>, key: T -> real, k: real): (r: seq<T>)
    ensures |r| <= |s|
    ensures forall i :: 0 <= i < |r| ==> key(r[i]) == k
  {
    if s == [] then [] else (if key(s[0]) == k then [s[0]] else []) + KeyClass(s[1..], key, k)
  }

  /** Inserts `x` after every element whose key is not greater than its own. */
  function InsertBy<T(==)>(x: T, s: seq<T>, key: T -> real): (r: seq<T>)
    ensures multiset(r) == multiset(s) + multiset{x}
  {
    if s == [] || key(x) < key(s[0]) then [x] + s
    else
      assert s == [s[0]] + s[1..];
      [s[0]] + InsertBy(x, s[1..], key)
  }

  /** Insertion sort: each element in turn is inserted into the sorted prefix. */
  function SortBy<T(==)>(s: seq<T>, key: T -> real): (r: seq<T>)
    ensures multiset(r) == multiset(s)
  {
    if s == [] then []
    else
      assert s == s[..|s| - 1] + [s[|s| - 1]];
      InsertBy(s[|s| - 1], SortBy(s[..|s| - 1], key), key)
  }

  lemma {:induction false} InsertBySorted<T>(x: T, s: seq<T>, key: T -> real)
    requires SortedBy(s, key)
    ensures SortedBy(InsertBy(x, s, key), key)
  {
    if s != [] && key(x) >= key(s[0]) {
      InsertBySorted(x, s[1..], key);
      var t := InsertBy(x, s[1..], key);
      forall y | y in t
        ensures key(s[0]) <= key(y)
      {
        assert y in multiset(t);
        assert y == x || y in s[1..];
      }
    }
  }

  /** The sort orders by the key. */
  lemma {:induction false} SortBySorted<T>(s: seq<T>, key: T -> real)
    ensures SortedBy(SortBy(s, key), key)
  {
    if s != [] {
      SortBySorted(s[..|s| - 1], key);
      InsertBySorted(s[|s| - 1], SortBy(s[..|s| - 1], key), key);
    }
  }

  lemma {:induction false} KeyClassConcat<T>(a: seq<T>, b: seq<T>, key: T -> real, k: real)
    ensures KeyClass(a + b, key, k) == KeyClass(a, key, k) + KeyClass(b, key, k)
  {
    if a != [] {
      KeyClassConcat(a[1..], b, key, k);
      assert (a + b)[1..] == a[1..] + b;
      assert (a + b)[0] == a[0];
    } else {
      assert a + b == b;
    }
  }

  lemma {:induction false} KeyClassEmpty<T>(s: seq<T>, key: T -> real, k: real)
    requires forall i :: 0 <= i < |s| ==> key(s[i]) != k
    ensures KeyClass(s, key, k) == []
  {
    if s != [] {
      KeyClassEmpty(s[1..], key, k);
    }
  }

  lemma {:induction false} KeyClassMember<T>(s: seq<T>, key: T -> real, k: real, i: nat)
    requires i < |s| && key(s[i]) == k
    ensures KeyClass(s, key, k) != []
  {
    if key(s[0]) != k {
      KeyClassMember(s[1..], key, k, i - 1);
    }
  }

  lemma {:induction false} KeyClassElements<T>(s: seq<T>, key: T -> real, k: real, m: nat)
    requires m < |KeyClass(s, key, k)|
    ensures exists i :: 0 <= i < |s| && s[i] == KeyClass(s, key, k)[m]
  {
    if key(s[0]) == k {
      if m > 0 {
        KeyClassElements(s[1..], key, k, m - 1);
        var i :| 0 <= i < |s[1..]| && s[1..][i] == KeyClass(s[1..], key, k)[m - 1];
        assert s[i + 1] == KeyClass(s, key, k)[m];
      } else {
        assert s[0] == KeyClass(s, key, k)[0];
      }
    } else {
      KeyClassElements(s[1..], key, k, m);
      var i :| 0 <= i < |s[1..]| && s[1..][i] == KeyClass(s[1..], key, k)[m];
      assert s[i + 1] == KeyClass(s, key, k)[m];
    }
  }

  lemma AppendAssociative<T>(a: seq<T>, b: seq<T>, c: seq<T>)
    ensures a + (b + c) == (a + b) + c
  {
  }

  lemma {:induction false} InsertByKeyClass<T>(x: T, s: seq<T>, key: T -> real, k: real)
    requires SortedBy(s, key)
    ensures KeyClass(InsertBy(x, s, key), key, k) == KeyClass(s, key, k) + (if key(x) == k then [x] else [])
  {
    var hx := if key(x) == k then [x] else [];
    if s == [] {
      assert InsertBy(x, s, key) == [x];
      assert KeyClass([x], key, k) == hx + KeyClass([], key, k);
    } else if key(x) < key(s[0]) {
      assert InsertBy(x, s, key) == [x] + s;
      assert ([x] + s)[1..] == s;
      assert KeyClass([x] + s, key, k) == hx + KeyClass(s, key, k);
      if key(x) == k {
        forall i | 0 <= i < |s|
          ensures key(s[i]) != k
        {
          if i > 0 {
            assert key(s[0]) <= key(s[i]);
          }
        }
        KeyClassEmpty(s, key, k);
      }
    } else {
      var y, rest := s[0], s[1..];
      var hy := if key(y) == k then [y] else [];
      assert SortedBy(rest, key) by {
        forall i, j | 0 <= i < j < |rest|
          ensures key(rest[i]) <= key(rest[j])
        {
          assert rest[i] == s[i + 1] && rest[j] == s[j + 1];
        }
      }
      InsertByKeyClass(x, rest, key, k);
      var t := InsertBy(x, rest, key);
      assert InsertBy(x, s, key) == [y] + t;
      assert ([y] + t)[1..] == t;
      assert KeyClass([y] + t, key, k) == hy + KeyClass(t, key, k);
      assert KeyClass(s, key, k) == hy + KeyClass(rest, key, k);
      AppendAssociative(hy, KeyClass(rest, key, k), hx);
    }
  }

  /** The sort is stable: elements with equal keys keep their relative order. */
  lemma {:induction false} SortByStable<T>(s: seq<T>, key: T -> real, k: real)
    ensures KeyClass(SortBy(s, key), key, k) == KeyClass(s, key, k)
  {
    if s != [] {
      var init, x := s[..|s| - 1], s[|s| - 1];
      var sorted := SortBy(init, key);
      assert SortBy(s, key) == InsertBy(x, sorted, key);
      SortByStable(init, key, k);
      SortBySorted(init, key);
      InsertByKeyClass(x, sorted, key, k);
      assert s == init + [x];
      KeyClassConcat(init, [x], key, k);
      assert KeyClass([x], key, k) == (if key(x) == k then [x] else []) + KeyClass([], key, k);
    }
  }

  /**
    A sorted arrangement that keeps every key class in order is unique: any
    stable sort of `s` by `key` (in particular the library's) equals `SortBy`.
  */
  lemma {:induction false} StableSortUnique<T>(r1: seq<T>, r2: seq<T>, key: T -> real)
    requires SortedBy(r1, key) && SortedBy(r2, key)
    requires forall k :: KeyClass(r1, key, k) == KeyClass(r2, key, k)
    ensures r1 == r2
    decreases |r1|
  {
    if r1 == [] || r2 == [] {
      var r := if r1 == [] then r2 else r1;
      if r != [] {
        KeyClassMember(r, key, key(r[0]), 0);
      }
    } else {
      var k1, k2 := key(r1[0]), key(r2[0]);
      KeyClassMember(r1, key, k1, 0);
      KeyClassElements(r2, key, k1, 0);
      KeyClassMember(r2, key, k2, 0);
      KeyClassElements(r1, key, k2, 0);
      assert k1 == k2;
      assert KeyClass(r1, key, k1)[0] == r1[0];
      assert KeyClass(r2, key, k1)[0] == r2[0];
      forall k
        ensures KeyClass(r1[1..], key, k) == KeyClass(r2[1..], key, k)
      {
        var h := if k1 == k then [r1[0]] else [];
        assert KeyClass(r1, key, k) == h + KeyClass(r1[1..], key, k);
        assert KeyClass(r2, key, k) == h + KeyClass(r2[1..], key, k);
        assert (h + KeyClass(r1[1..], key, k))[|h|..] == KeyClass(r1[1..], key, k);
        assert (h + KeyClass(r2[1..], key, k))[|h|..] == KeyClass(r2[1..], key, k);
      }
      StableSortUnique(r1[1..], r2[1..], key);
      assert r1 == [r1[0]] + r1[1..];
      assert r2 == [r2[0]] + r2[1..];
    }
  }

  /** `SortBy` is the stable sort: sorted, stable, and the only arrangement that is both. */
  lemma SortByIsTheStableSort<T>(s: seq<T>, r: seq<T>, key: T -> real)
    requires SortedBy(r, key)
    requires forall k :: KeyClass(r, key, k) == KeyClass(s, key, k)
    ensures r == SortBy(s, key)
  {
    SortBySorted(s, key);
    forall k
      ensures KeyClass(r, key, k) == KeyClass(SortBy(s, key), key, k)
    {
      SortByStable(s, key, k);
    }
    StableSortUnique(r, SortBy(s, key), key);
  }

  // ---------------------------------------------------------------------------
  // Sums

  /** The sum of `f` over the elements of `s`. */
  function SumOf<T>(s: seq<T>, f: T -> nat): nat {
    if s == [] then 0 else f(s[0]) + SumOf(s[1..], f)
  }

  lemma {:induction false} SumOfConcat<T>(a: seq<T>, b: seq<T>, f: T -> nat)
    ensures SumOf(a + b, f) == SumOf(a, f) + SumOf(b, f)
  {
    if a != [] {
      SumOfConcat(a[1..], b, f);
      assert (a + b)[1..] == a[1..] + b;
      assert (a + b)[0] == a[0];
    } else {
      assert a + b == b;
    }
  }

  /** Replacing one element changes the sum by the difference of the two values. */
  lemma {:induction false} SumOfUpdate<T>(s: seq<T>, i: nat, y: T, f: T -> nat)
    requires i < |s|
    ensures SumOf(s[i := y], f) + f(s[i]) == SumOf(s, f) + f(y)
  {
    if i > 0 {
      SumOfUpdate(s[1..], i - 1, y, f);
      assert s[i := y][1..] == s[1..][i - 1 := y];
    } else {
      assert s[i := y][1..] == s[1..];
    }
  }

  /** Functions that agree on the elements of `s` have the same sum over it. */
  lemma {:induction false} SumOfAgree<T>(s: seq<T>, f: T -> nat, g: T -> nat)
    requires forall i :: 0 <= i < |s| ==> f(s[i]) == g(s[i])
    ensures SumOf(s, f) == SumOf(s, g)
  {
    if s != [] {
      SumOfAgree(s[1..], f, g);
    }
  }

  /** Raising `f` by one at an element that occurs once raises the sum by one. */
  lemma {:induction false} SumOfBump<T>(s: seq<T>, x: T, f: T -> nat, g: T -> nat)
    requires forall i, j :: 0 <= i < j < |s| ==> s[i] != s[j]
    requires x in s
    requires forall y :: y != x ==> g(y) == f(y)
    requires g(x) == f(x) + 1
    ensures SumOf(s, g) == SumOf(s, f) + 1
  {
    if s[0] == x {
      assert forall i :: 0 <= i < |s[1..]| ==> s[1..][i] != x by {
        forall i | 0 <= i < |s[1..]|
          ensures s[1..][i] != x
        {
          assert s[1..][i] == s[i + 1];
        }
      }
      SumOfAgree(s[1..], f, g);
    } else {
      SumOfBump(s[1..], x, f, g);
    }
  }

  /** Appending a new element `x` while changing `f` only at `x` adds its value. */
  lemma SumOfAppendFresh<T>(s: seq<T>, x: T, f: T -> nat, g: T -> nat)
    requires x !in s
    requires forall y :: y != x ==> g(y) == f(y)
    ensures SumOf(s + [x], g) == SumOf(s, f) + g(x)
  {
    SumOfAgree(s, f, g);
    SumOfConcat(s, [x], g);
    assert SumOf([x], g) == g(x);
  }

  /** The sum over a sequence depends only on its elements, not on their order. */
  lemma {:induction false} SumOfPermutation<T>(a: seq<T>, b: seq<T>, f: T -> nat)
    requires multiset(a) == multiset(b)
    ensures SumOf(a, f) == SumOf(b, f)
    decreases |a|
  {
    if a == [] {
      assert |b| == |multiset(b)| == 0;
    } else {
      var x := a[0];
      assert x in multiset(b);
      var i :| 0 <= i < |b| && b[i] == x;
      var rest := b[..i] + b[i + 1..];
      RemoveOne(a, b, i);
      SumOfPermutation(a[1..], rest, f);
      assert b == b[..i] + [x] + b[i + 1..];
      SumOfConcat(b[..i] + [x], b[i + 1..], f);
      SumOfConcat(b[..i], [x], f);
      SumOfConcat(b[..i], b[i + 1..], f);
      assert SumOf([x], f) == f(x);
      assert SumOf(a, f) == f(x) + SumOf(a[1..], f);
    }
  }

  /** Taking the first element out of `a` and a copy of it out of `b` keeps them permutations. */
  lemma RemoveOne<T>(a: seq<T>, b: seq<T>, i: nat)
    requires multiset(a) == multiset(b) && a != [] && i < |b| && b[i] == a[0]
    ensures multiset(a[1..]) == multiset(b[..i] + b[i + 1..])
  {
    var x := a[0];
    assert b == b[..i] + [x] + b[i + 1..];
    assert a == [x] + a[1..];
    assert multiset(b) == multiset(b[..i]) + multiset{x} + multiset(b[i + 1..]);
    assert multiset(a) == multiset{x} + multiset(a[1..]);
    assert multiset(b[..i] + b[i + 1..]) == multiset(b[..i]) + multiset(b[i + 1..]);
    assert multiset(a[1..]) == multiset(a) - multiset{x};
  }
}
