/** Per-key count tables (`groupby(key).size()`, `value_counts()`), their
    ranking by count (`sort_values(ascending=False)`, `nlargest`) and the
    position of their first maximum (`idxmax`). */
module Groups {
  import opened Seqs

  /** One row of a count table: a key and the number of rows carrying it. */
  datatype Group<K> = Group(key: K, count: nat)

  function TotalCount<K>(gs: seq<Group<K>>): nat {
    if gs == [] then 0 else gs[0].count + TotalCount(gs[1..])
  }

  predicate HasKey<K(==)>(gs: seq<Group<K>>, k: K) {
    exists i :: 0 <= i < |gs| && gs[i].key == k
  }

  predicate DistinctKeys<K(==)>(gs: seq<Group<K>>) {
    forall i, j :: 0 <= i < j < |gs| ==> gs[i].key != gs[j].key
  }

  /** Counts never increase along the table. */
  predicate SortedByCount<K>(gs: seq<Group<K>>) {
    forall i, j :: 0 <= i < j < |gs| ==> gs[i].count >= gs[j].count
  }

  /** The number of elements of `s` under each key of `ks`, in the order of `ks`. */
  function GroupCounts<T(==), K(==)>(s: seq<T>, key: T -> K, ks: seq<K>): (r: seq<Group<K>>)
    ensures |r| == |ks|
    ensures forall i :: 0 <= i < |ks| ==> r[i] == Group(ks[i], KeyCount(s, key, ks[i]))
  {
    if ks == [] then [] else [Group(ks[0], KeyCount(s, key, ks[0]))] + GroupCounts(s, key, ks[1..])
  }

  /** A table over distinct keys has one row per key, and no other rows. */
  lemma GroupCountsRows<T, K>(s: seq<T>, key: T -> K, ks: seq<K>)
    requires NoDuplicates(ks)
    ensures DistinctKeys(GroupCounts(s, key, ks))
    ensures forall k :: k in ks ==> Group(k, KeyCount(s, key, k)) in GroupCounts(s, key, ks)
    ensures forall k :: HasKey(GroupCounts(s, key, ks), k) <==> k in ks
  {
    var gs := GroupCounts(s, key, ks);
    forall k | k in ks ensures Group(k, KeyCount(s, key, k)) in gs {
      var i :| 0 <= i < |ks| && ks[i] == k;
      assert gs[i] == Group(k, KeyCount(s, key, k));
    }
    forall k ensures HasKey(gs, k) <==> k in ks {
      if k in ks {
        var i :| 0 <= i < |ks| && ks[i] == k;
        assert gs[i].key == k;
      }
    }
  }

  lemma {:induction false} GroupCountsOfEmpty<T, K>(s: seq<T>, key: T -> K, ks: seq<K>)
    requires s == []
    ensures TotalCount(GroupCounts(s, key, ks)) == 0
  {
    if ks != [] {
      GroupCountsOfEmpty(s, key, ks[1..]);
    }
  }

  /** Dropping the first element lowers the total of the table by one exactly
      when that element's key is one of the distinct keys. */
  lemma {:induction false} GroupCountsStep<T, K>(s: seq<T>, key: T -> K, ks: seq<K>)
    requires s != [] && NoDuplicates(ks)
    ensures TotalCount(GroupCounts(s, key, ks))
         == TotalCount(GroupCounts(s[1..], key, ks)) + (if key(s[0]) in ks then 1 else 0)
  {
    if ks != [] {
      GroupCountsStep(s, key, ks[1..]);
      if key(s[0]) == ks[0] {
        assert key(s[0]) !in ks[1..];
      }
    }
  }

  /** Grouping by distinct keys that cover every element accounts for each
      element exactly once. */
  lemma {:induction false} GroupCountsTotal<T, K>(s: seq<T>, key: T -> K, ks: seq<K>)
    requires NoDuplicates(ks)
    requires forall x :: x in s ==> key(x) in ks
    ensures TotalCount(GroupCounts(s, key, ks)) == |s|
  {
    if s == [] {
      GroupCountsOfEmpty(s, key, ks);
    } else {
      GroupCountsTotal(s[1..], key, ks);
      GroupCountsStep(s, key, ks);
    }
  }

  lemma SameElementsSameKeys<K>(a: seq<Group<K>>, b: seq<Group<K>>, k: K)
    requires multiset(a) == multiset(b)
    ensures HasKey(a, k) <==> HasKey(b, k)
  {
    if HasKey(a, k) {
      var i :| 0 <= i < |a| && a[i].key == k;
      assert a[i] in multiset(b);
    }
    if HasKey(b, k) {
      var i :| 0 <= i < |b| && b[i].key == k;
      assert b[i] in multiset(a);
    }
  }

  lemma PrependSorted<K>(x: Group<K>, l: seq<Group<K>>)
    requires SortedByCount(l)
    requires forall y :: y in l ==> y.count <= x.count
    ensures SortedByCount([x] + l)
  {
    forall i, j | 0 <= i < j < |[x] + l| ensures ([x] + l)[i].count >= ([x] + l)[j].count {
      if i == 0 {
        assert ([x] + l)[j] == l[j - 1];
        assert l[j - 1] in l;
      } else {
        assert ([x] + l)[i] == l[i - 1] && ([x] + l)[j] == l[j - 1];
      }
    }
  }

  /** In a count-descending table no row counts more than the first. */
  lemma FirstIsLargest<K>(l: seq<Group<K>>, c: nat)
    requires SortedByCount(l) && (l == [] || l[0].count <= c)
    ensures forall y :: y in l ==> y.count <= c
  {
    forall y | y in l ensures y.count <= c {
      var i :| 0 <= i < |l| && l[i] == y;
    }
  }

  /** `g` placed into the count-descending `l` before the first smaller count. */
  function InsertByCount<K(==)>(g: Group<K>, l: seq<Group<K>>): (r: seq<Group<K>>)
    requires SortedByCount(l)
    ensures SortedByCount(r)
    ensures multiset(r) == multiset(l) + multiset{g}
  {
    if l == [] || g.count >= l[0].count then
      FirstIsLargest(l, g.count);
      PrependSorted(g, l);
      [g] + l
    else
      var rest := InsertByCount(g, l[1..]);
      InsertedBelow(g, l, rest);
      PrependSorted(l[0], rest);
      assert l == [l[0]] + l[1..];
      [l[0]] + rest
  }

  /** Inserting below the head keeps every row at most the head's count. */
  lemma InsertedBelow<K>(g: Group<K>, l: seq<Group<K>>, rest: seq<Group<K>>)
    requires SortedByCount(l) && l != [] && g.count < l[0].count
    requires multiset(rest) == multiset(l[1..]) + multiset{g}
    ensures forall y :: y in rest ==> y.count <= l[0].count
  {
    forall y | y in rest ensures y.count <= l[0].count {
      assert y in multiset(rest);
      if y != g {
        assert y in multiset(l[1..]);
        var i :| 0 <= i < |l[1..]| && l[1..][i] == y;
        assert l[i + 1] == y;
      }
    }
  }

  lemma {:induction false} InsertByCountTotal<K>(g: Group<K>, l: seq<Group<K>>)
    requires SortedByCount(l)
    ensures TotalCount(InsertByCount(g, l)) == g.count + TotalCount(l)
  {
    if l != [] && g.count < l[0].count {
      InsertByCountTotal(g, l[1..]);
      var rest := InsertByCount(g, l[1..]);
      assert ([l[0]] + rest)[1..] == rest;
    } else {
      assert ([g] + l)[1..] == l;
    }
  }

  lemma ConsKeys<K>(x: Group<K>, l: seq<Group<K>>)
    requires DistinctKeys(l) && !HasKey(l, x.key)
    ensures DistinctKeys([x] + l)
  {
    var r := [x] + l;
    forall i, j | 0 <= i < j < |r| ensures r[i].key != r[j].key {
      assert r[j] == l[j - 1];
      if i > 0 {
        assert r[i] == l[i - 1];
      }
    }
  }

  lemma TailKeys<K>(l: seq<Group<K>>)
    requires l != [] && DistinctKeys(l)
    ensures DistinctKeys(l[1..]) && !HasKey(l[1..], l[0].key)
    ensures forall k :: HasKey(l[1..], k) ==> HasKey(l, k)
  {
    forall k | HasKey(l[1..], k) ensures HasKey(l, k) {
      var i :| 0 <= i < |l[1..]| && l[1..][i].key == k;
      assert l[i + 1].key == k;
    }
  }

  lemma {:induction false} InsertByCountKeys<K>(g: Group<K>, l: seq<Group<K>>)
    requires SortedByCount(l) && DistinctKeys(l) && !HasKey(l, g.key)
    ensures DistinctKeys(InsertByCount(g, l))
  {
    if l != [] && g.count < l[0].count {
      var rest := InsertByCount(g, l[1..]);
      TailKeys(l);
      InsertByCountKeys(g, l[1..]);
      assert l[0].key != g.key;
      SameElementsSameKeys(rest, l[1..] + [g], l[0].key);
      assert !HasKey(l[1..] + [g], l[0].key);
      ConsKeys(l[0], rest);
    } else {
      ConsKeys(g, l);
    }
  }

  /** The table reordered by descending count; a permutation of its input. */
  function RankByCount<K(==)>(gs: seq<Group<K>>): (r: seq<Group<K>>)
    ensures SortedByCount(r)
    ensures multiset(r) == multiset(gs)
    ensures |r| == |gs|
  {
    if gs == [] then []
    else
      var rest := RankByCount(gs[1..]);
      assert gs == [gs[0]] + gs[1..];
      var r := InsertByCount(gs[0], rest);
      assert |r| == |multiset(r)|;
      r
  }

  lemma {:induction false} RankByCountTotal<K>(gs: seq<Group<K>>)
    ensures TotalCount(RankByCount(gs)) == TotalCount(gs)
  {
    if gs != [] {
      RankByCountTotal(gs[1..]);
      InsertByCountTotal(gs[0], RankByCount(gs[1..]));
    }
  }

  lemma {:induction false} RankByCountKeys<K>(gs: seq<Group<K>>)
    requires DistinctKeys(gs)
    ensures DistinctKeys(RankByCount(gs))
  {
    if gs != [] {
      var rest := RankByCount(gs[1..]);
      assert DistinctKeys(gs[1..]) by {
        forall i, j | 0 <= i < j < |gs[1..]| ensures gs[1..][i].key != gs[1..][j].key {
          assert gs[1..][i] == gs[i + 1] && gs[1..][j] == gs[j + 1];
        }
      }
      RankByCountKeys(gs[1..]);
      assert !HasKey(gs[1..], gs[0].key) by {
        forall i | 0 <= i < |gs[1..]| ensures gs[1..][i].key != gs[0].key {
          assert gs[1..][i] == gs[i + 1];
        }
      }
      SameElementsSameKeys(rest, gs[1..], gs[0].key);
      InsertByCountKeys(gs[0], rest);
    }
  }

  /** A prefix of a count-descending permutation of `gs` stays descending
      and holds rows of `gs`. */
  lemma RankedPrefix<K>(gs: seq<Group<K>>, ranked: seq<Group<K>>, r: seq<Group<K>>)
    requires SortedByCount(ranked) && multiset(ranked) == multiset(gs)
    requires |r| <= |ranked| && r == ranked[..|r|]
    ensures SortedByCount(r)
    ensures forall g :: g in r ==> g in gs
  {
    forall g | g in r ensures g in gs {
      assert g in ranked;
      assert g in multiset(ranked);
    }
  }

  /** The `n` rows with the largest counts, largest first: `head(n)` of the
      ranked rows, as `value_counts().head(n)` computes them. A negative `n`
      is `head`'s, which drops the `-n` smallest; `nlargest` is only called
      with a positive `n` (5 for the pie chart, 8 for the arrest table),
      where it agrees with `head(n)` of the ranked rows. */
  function TopK<K(==)>(gs: seq<Group<K>>, n: int): (r: seq<Group<K>>)
    ensures |r| == if n >= 0 then Min(n, |gs|) else Max(0, |gs| + n)
    ensures SortedByCount(r)
    ensures forall g :: g in r ==> g in gs
  {
    var ranked := RankByCount(gs);
    var r := Head(ranked, n);
    RankedPrefix(gs, ranked, r);
    r
  }

  /** A row left out has a count no larger than the last row kept. */
  lemma TopKLeftOut<K>(gs: seq<Group<K>>, n: int, g: Group<K>)
    requires g in gs && g !in TopK(gs, n) && |TopK(gs, n)| > 0
    ensures g.count <= TopK(gs, n)[|TopK(gs, n)| - 1].count
  {
    var ranked := RankByCount(gs);
    var r := TopK(gs, n);
    assert r == ranked[..|r|];
    assert g in multiset(ranked);
    var i :| 0 <= i < |ranked| && ranked[i] == g;
    assert i >= |r|;
  }

  /** Over distinct keys, the kept rows have distinct keys. */
  lemma TopKKeys<K>(gs: seq<Group<K>>, n: int)
    requires DistinctKeys(gs)
    ensures DistinctKeys(TopK(gs, n))
  {
    var ranked := RankByCount(gs);
    RankByCountKeys(gs);
    assert TopK(gs, n) == ranked[..|TopK(gs, n)|];
  }

  lemma {:induction false} TotalCountConcat<K>(a: seq<Group<K>>, b: seq<Group<K>>)
    ensures TotalCount(a + b) == TotalCount(a) + TotalCount(b)
  {
    if a == [] {
      assert a + b == b;
    } else {
      assert (a + b)[0] == a[0] && (a + b)[1..] == a[1..] + b;
      TotalCountConcat(a[1..], b);
    }
  }

  lemma TotalCountPrefix<K>(l: seq<Group<K>>, m: nat)
    requires m <= |l|
    ensures TotalCount(l[..m]) <= TotalCount(l)
  {
    assert l == l[..m] + l[m..];
    TotalCountConcat(l[..m], l[m..]);
  }

  /** Keeping only the first rows of a table can only lower its total; when
      no row is dropped the kept rows are a permutation with the same total. */
  lemma TopKTotal<K>(gs: seq<Group<K>>, n: int)
    ensures TotalCount(TopK(gs, n)) <= TotalCount(gs)
    ensures |TopK(gs, n)| == |gs| ==> multiset(TopK(gs, n)) == multiset(gs) && TotalCount(TopK(gs, n)) == TotalCount(gs)
  {
    var ranked := RankByCount(gs);
    var r := TopK(gs, n);
    RankByCountTotal(gs);
    assert r == ranked[..|r|];
    TotalCountPrefix(ranked, |r|);
    if |r| == |gs| {
      assert r == ranked;
    }
  }

  /** `idxmax`: the position of the first row with the largest count. */
  function FirstMax<K>(gs: seq<Group<K>>): (i: nat)
    requires |gs| > 0
    ensures i < |gs|
    ensures forall j :: 0 <= j < |gs| ==> gs[j].count <= gs[i].count
    ensures forall j :: 0 <= j < i ==> gs[j].count < gs[i].count
  {
    if |gs| == 1 then 0
    else
      var i := FirstMax(gs[..|gs| - 1]);
      if gs[|gs| - 1].count > gs[i].count then |gs| - 1 else i
  }
}
