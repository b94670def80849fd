/** Sequence operations the aggregation layer is built from: boolean-mask
    selection, per-key counting, distinct values, and `head(n)`. */
module Seqs {

  predicate NoDuplicates<T(==)>(s: seq<T>) {
    forall i, j :: 0 <= i < j < |s| ==> s[i] != s[j]
  }

  predicate StrictlyAscending(s: seq<int>) {
    forall i, j :: 0 <= i < j < |s| ==> s[i] < s[j]
  }

  function Elements<T(==)>(s: seq<T>): set<T> {
    set x | x in s
  }

  function Min(a: int, b: int): int { if a <= b then a else b }

  function Max(a: int, b: int): int { if a >= b then a else b }

  /** The elements of `s` that satisfy `p`, in their original order: the
      selection `df[mask]` of a boolean mask. */
  function Filter<T(==)>(s: seq<T>, p: T -> bool): (r: seq<T>)
    ensures |r| <= |s|
    ensures forall x :: x in r ==> x in s && p(x)
    ensures forall x :: x in s && p(x) ==> x in r
  {
    if s == [] then []
    else (if p(s[0]) then [s[0]] else []) + Filter(s[1..], p)
  }

  /** The selection keeps every element exactly when all of them qualify,
      and none exactly when none of them does. */
  lemma {:induction false} FilterAllOrNone<T>(s: seq<T>, p: T -> bool)
    ensures |Filter(s, p)| == |s| <==> forall x :: x in s ==> p(x)
    ensures |Filter(s, p)| == 0 <==> forall x :: x in s ==> !p(x)
  {
    if s != [] {
      FilterAllOrNone(s[1..], p);
      assert forall x :: x in s <==> x == s[0] || x in s[1..];
    }
  }

  /** Selection distributes over concatenation: together with the one-element
      case this says that Filter keeps the selected elements in order. */
  lemma {:induction false} FilterConcat<T>(a: seq<T>, b: seq<T>, p: T -> bool)
    ensures Filter(a + b, p) == Filter(a, p) + Filter(b, p)
  {
    if a == [] {
      assert a + b == b;
    } else {
      assert (a + b)[0] == a[0] && (a + b)[1..] == a[1..] + b;
      FilterConcat(a[1..], b, p);
      var head := if p(a[0]) then [a[0]] else [];
      calc {
        Filter(a + b, p);
        head + Filter(a[1..] + b, p);
        head + (Filter(a[1..], p) + Filter(b, p));
        (head + Filter(a[1..], p)) + Filter(b, p);
      }
    }
  }

  lemma {:induction false} FilterIdempotent<T>(s: seq<T>, p: T -> bool)
    ensures Filter(Filter(s, p), p) == Filter(s, p)
  {
    if s != [] {
      FilterIdempotent(s[1..], p);
      var head := if p(s[0]) then [s[0]] else [];
      assert Filter(s, p) == head + Filter(s[1..], p);
      FilterConcat(head, Filter(s[1..], p), p);
      assert Filter(head, p) == head by {
        if head != [] { assert head[1..] == []; }
      }
    }
  }

  /** `f` applied to every element, in order. */
  function Map<T(==), U(==)>(s: seq<T>, f: T -> U): (r: seq<U>)
    ensures |r| == |s|
    ensures forall i :: 0 <= i < |s| ==> r[i] == f(s[i])
    ensures forall x :: x in s ==> f(x) in r
  {
    if s == [] then [] else [f(s[0])] + Map(s[1..], f)
  }

  lemma MapMember<T, U>(s: seq<T>, f: T -> U, y: U)
    requires y in Map(s, f)
    ensures exists x :: x in s && f(x) == y
  {
    var i :| 0 <= i < |s| && Map(s, f)[i] == y;
    assert s[i] in s;
  }

  /** The number of elements of `s` whose key is `k`. */
  function KeyCount<T(==), K(==)>(s: seq<T>, key: T -> K, k: K): (n: nat)
    ensures n <= |s|
  {
    if s == [] then 0
    else (if key(s[0]) == k then 1 else 0) + KeyCount(s[1..], key, k)
  }

  /** Every key that occurs has a positive count. */
  lemma {:induction false} KeyCountPresent<T, K>(s: seq<T>, key: T -> K, k: K)
    requires k in Map(s, key)
    ensures KeyCount(s, key, k) > 0
  {
    if key(s[0]) != k {
      assert k in Map(s[1..], key);
      KeyCountPresent(s[1..], key, k);
    }
  }

  /** A key that no element carries has count 0. */
  lemma {:induction false} KeyCountAbsent<T, K>(s: seq<T>, key: T -> K, k: K)
    requires forall x :: x in s ==> key(x) != k
    ensures KeyCount(s, key, k) == 0
  {
    if s != [] {
      assert s[0] in s;
      KeyCountAbsent(s[1..], key, k);
    }
  }

  /** Counting the selected elements per key loses exactly the keys of
      unselected elements. */
  lemma {:induction false} KeyCountOfFilter<T, K>(s: seq<T>, p: T -> bool, key: T -> K, k: K)
    requires forall x :: x in s && key(x) == k ==> p(x)
    ensures KeyCount(Filter(s, p), key, k) == KeyCount(s, key, k)
  {
    if s != [] {
      KeyCountOfFilter(s[1..], p, key, k);
      var head := if p(s[0]) then [s[0]] else [];
      assert Filter(s, p) == head + Filter(s[1..], p);
      KeyCountConcat(head, Filter(s[1..], p), key, k);
    }
  }

  lemma {:induction false} KeyCountOfFilterAtMost<T, K>(s: seq<T>, p: T -> bool, key: T -> K, k: K)
    ensures KeyCount(Filter(s, p), key, k) <= KeyCount(s, key, k)
  {
    if s != [] {
      KeyCountOfFilterAtMost(s[1..], p, key, k);
      var head := if p(s[0]) then [s[0]] else [];
      assert Filter(s, p) == head + Filter(s[1..], p);
      KeyCountConcat(head, Filter(s[1..], p), key, k);
    }
  }

  lemma {:induction false} KeyCountConcat<T, K>(a: seq<T>, b: seq<T>, key: T -> K, k: K)
    ensures KeyCount(a + b, key, k) == KeyCount(a, key, k) + KeyCount(b, key, k)
  {
    if a == [] {
      assert a + b == b;
    } else {
      assert (a + b)[0] == a[0] && (a + b)[1..] == a[1..] + b;
      KeyCountConcat(a[1..], b, key, k);
    }
  }

  /** The distinct elements of `s` in order of first occurrence. */
  function DistinctInOrder<T(==)>(s: seq<T>): (r: seq<T>)
    ensures NoDuplicates(r)
    ensures forall x :: x in r ==> x in s
    ensures forall x :: x in s ==> x in r
    ensures |r| <= |s|
  {
    if s == [] then []
    else
      var d := DistinctInOrder(s[..|s| - 1]);
      assert s == s[..|s| - 1] + [s[|s| - 1]];
      if s[|s| - 1] in d then d else d + [s[|s| - 1]]
  }

  /** `x` placed into the strictly ascending `l`, unless it is already there. */
  function InsertAscending(x: int, l: seq<int>): (r: seq<int>)
    requires StrictlyAscending(l)
    ensures StrictlyAscending(r)
    ensures forall y :: y in r <==> y == x || y in l
    ensures |r| <= |l| + 1
  {
    if l == [] then [x]
    else if x < l[0] then
      PrependAscending(x, l);
      [x] + l
    else if x == l[0] then l
    else
      var rest := InsertAscending(x, l[1..]);
      PrependAscending(l[0], rest);
      [l[0]] + rest
  }

  lemma PrependAscending(x: int, l: seq<int>)
    requires StrictlyAscending(l)
    requires (l != [] && x < l[0]) || (forall y :: y in l ==> x < y)
    ensures StrictlyAscending([x] + l)
  {
    var r := [x] + l;
    forall i, j | 0 <= i < j < |r| ensures r[i] < r[j] {
      assert r[j] == l[j - 1];
      if i > 0 {
        assert r[i] == l[i - 1];
      } else {
        assert l[j - 1] in l;
      }
    }
  }

  /** `sorted(set(s))`: the distinct values of `s`, ascending. */
  function SortedDistinct(s: seq<int>): (r: seq<int>)
    ensures StrictlyAscending(r)
    ensures forall x :: x in r <==> x in s
    ensures |r| <= |s|
  {
    if s == [] then [] else InsertAscending(s[0], SortedDistinct(s[1..]))
  }

  lemma AscendingHasNoDuplicates(s: seq<int>)
    requires StrictlyAscending(s)
    ensures NoDuplicates(s)
  {
  }

  /** A sequence without duplicates has as many elements as its set. */
  lemma {:induction false} DistinctElementsCount<T>(s: seq<T>)
    requires NoDuplicates(s)
    ensures |Elements(s)| == |s|
  {
    if s != [] {
      DistinctElementsCount(s[1..]);
      assert Elements(s) == Elements(s[1..]) + {s[0]};
      assert s[0] !in Elements(s[1..]);
    }
  }

  /** `head(n)` of a pandas frame: the first `n` rows; a negative `n` drops
      the last `-n` rows instead. */
  function Head<T>(s: seq<T>, n: int): (r: seq<T>)
    ensures |r| == if n >= 0 then Min(n, |s|) else Max(0, |s| + n)
    ensures r == s[..|r|]
  {
    if n >= 0 then s[..Min(n, |s|)] else s[..Max(0, |s| + n)]
  }
}
