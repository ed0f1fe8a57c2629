/** Sequence toolkit for the table pipelines: distinctness, `set(...)`
    (`Dedup`), `list.index` (`IndexOf`), `sum(...)` (`SumOf`), a stable sort,
    `groupby().sum()` and `idxmax`. */
module Seqs {

  import opened Wrappers

  /** No element occurs twice. */
  predicate NoDup<T(==)>(xs: seq<T>) {
    forall i, j :: 0 <= i < j < |xs| ==> xs[i] != xs[j]
  }

  lemma {:induction false} NoDupCount<T>(xs: seq<T>, x: T)
    requires NoDup(xs)
    ensures multiset(xs)[x] <= 1
  {
    if xs != [] {
      assert NoDup(xs[1..]) by {
        forall i, j | 0 <= i < j < |xs[1..]| ensures xs[1..][i] != xs[1..][j] {
          assert xs[1..][i] == xs[i + 1] && xs[1..][j] == xs[j + 1];
        }
      }
      NoDupCount(xs[1..], x);
      assert xs == [xs[0]] + xs[1..];
      if x == xs[0] {
        assert x !in xs[1..] by {
          forall k | 0 <= k < |xs[1..]| ensures xs[1..][k] != x {
            assert xs[1..][k] == xs[k + 1];
          }
        }
      }
    }
  }

  /** Dropping the head keeps the rest free of duplicates and without the head. */
  lemma NoDupTail<T>(xs: seq<T>)
    requires NoDup(xs) && xs != []
    ensures NoDup(xs[1..]) && xs[0] !in xs[1..]
  {
    forall i, j | 0 <= i < j < |xs[1..]| ensures xs[1..][i] != xs[1..][j] {
      assert xs[1..][i] == xs[i + 1] && xs[1..][j] == xs[j + 1];
    }
    forall k | 0 <= k < |xs[1..]| ensures xs[1..][k] != xs[0] {
      assert xs[1..][k] == xs[k + 1];
    }
  }

  /** Putting a new element in front keeps a sequence free of duplicates. */
  lemma NoDupCons<T>(x: T, xs: seq<T>)
    requires NoDup(xs) && x !in xs
    ensures NoDup([x] + xs)
  {
    var ys := [x] + xs;
    forall i, j | 0 <= i < j < |ys| ensures ys[i] != ys[j] {
      assert ys[j] == xs[j - 1];
      if i > 0 { assert ys[i] == xs[i - 1]; }
    }
  }

  /** The index of the first occurrence of `x`, or `|xs|` when it is absent. */
  function IndexOf<T(==)>(xs: seq<T>, x: T): (r: nat)
    ensures r <= |xs|
    ensures r < |xs| ==> xs[r] == x
    ensures r == |xs| <==> x !in xs
    ensures forall j :: 0 <= j < r ==> xs[j] != x
  {
    if xs == [] then 0
    else if xs[0] == x then 0
    else
      var r := IndexOf(xs[1..], x);
      assert forall j :: 0 < j < |xs| ==> xs[j] == xs[1..][j - 1];
      r + 1
  }

  /** `rank` never decreases along `xs`. */
  ghost predicate RankOrdered<T>(xs: seq<T>, rank: T -> int) {
    forall i, j :: 0 <= i < j < |xs| ==> rank(xs[i]) <= rank(xs[j])
  }

  lemma {:induction false} DescendingGap(s: seq<int>)
    requires s != []
    requires forall i, j :: 0 <= i < j < |s| ==> s[i] < s[j]
    ensures s[0] <= s[|s| - 1] - (|s| - 1)
  {
    if |s| > 1 {
      DescendingGap(s[1..]);
      assert s[1..][0] == s[1];
    }
  }

  /** A strictly increasing sequence of `n` integers drawn from `lo .. lo+n-1`
      is that range in order. */
  lemma {:induction false} StrictlyIncreasingFill(s: seq<int>, lo: int)
    requires forall i, j :: 0 <= i < j < |s| ==> s[i] < s[j]
    requires forall i :: 0 <= i < |s| ==> lo <= s[i] < lo + |s|
    ensures forall i :: 0 <= i < |s| ==> s[i] == lo + i
  {
    if s != [] {
      var init := s[..|s| - 1];
      DescendingGap(s);
      forall i | 0 <= i < |init| ensures lo <= init[i] < lo + |init| {
        assert init[i] == s[i] && s[i] < s[|s| - 1];
      }
      StrictlyIncreasingFill(init, lo);
    }
  }

  /** An element ranked no higher than any of `rest` can go in front. */
  lemma ConsRankOrdered<T>(x: T, rest: seq<T>, rank: T -> int)
    requires RankOrdered(rest, rank)
    requires forall y :: y in rest ==> rank(x) <= rank(y)
    ensures RankOrdered([x] + rest, rank)
  {
    var r := [x] + rest;
    forall i, j | 0 <= i < j < |r| ensures rank(r[i]) <= rank(r[j]) {
      assert r[j] == rest[j - 1];
      if i > 0 { assert r[i] == rest[i - 1]; }
    }
  }

  lemma RankOrderedTail<T>(xs: seq<T>, rank: T -> int)
    requires xs != [] && RankOrdered(xs, rank)
    ensures RankOrdered(xs[1..], rank)
    ensures forall y :: y in xs[1..] ==> rank(xs[0]) <= rank(y)
  {
    var t := xs[1..];
    forall i, j | 0 <= i < j < |t| ensures rank(t[i]) <= rank(t[j]) {
      assert t[i] == xs[i + 1] && t[j] == xs[j + 1];
    }
    forall y | y in t ensures rank(xs[0]) <= rank(y) {
      var k :| 0 <= k < |t| && t[k] == y;
      assert xs[k + 1] == y;
    }
  }

  /** A sequence holding exactly the elements of `order`, once each, and
      ordered by a rank that numbers `order` 0, 1, 2, ... is `order` itself. */
  lemma RankedPermutationIsOrder<T>(xs: seq<T>, order: seq<T>, rank: T -> int)
    requires NoDup(xs) && NoDup(order)
    requires forall x :: x in xs <==> x in order
    requires forall i :: 0 <= i < |order| ==> rank(order[i]) == i
    requires RankOrdered(xs, rank)
    ensures xs == order
  {
    assert |xs| == |order| by {
      NoDupCardinality(xs);
      NoDupCardinality(order);
      assert (set x | x in xs) == (set x | x in order);
    }
    var ranks := seq(|xs|, i requires 0 <= i < |xs| => rank(xs[i]));
    forall i | 0 <= i < |xs| ensures 0 <= ranks[i] < |ranks| {
      assert xs[i] in order;
    }
    forall i, j | 0 <= i < j < |xs| ensures ranks[i] < ranks[j] {
      assert xs[i] in order && xs[j] in order;
      var a :| 0 <= a < |order| && order[a] == xs[i];
      var b :| 0 <= b < |order| && order[b] == xs[j];
      assert xs[i] != xs[j];
    }
    StrictlyIncreasingFill(ranks, 0);
    forall i | 0 <= i < |xs| ensures xs[i] == order[i] {
      assert xs[i] in order;
      var a :| 0 <= a < |order| && order[a] == xs[i];
      assert ranks[i] == i && rank(xs[i]) == a;
    }
  }

  /** A permutation of a sequence without duplicates has none either. */
  lemma NoDupPermutation<T>(xs: seq<T>, ys: seq<T>)
    requires NoDup(xs) && multiset(xs) == multiset(ys)
    ensures NoDup(ys)
  {
    forall i, j | 0 <= i < j < |ys| ensures ys[i] != ys[j] {
      if ys[i] == ys[j] {
        var y := ys[i];
        assert ys == ys[..j] + ys[j..];
        assert y in ys[..j];
        assert y in ys[j..];
        assert multiset(ys)[y] == multiset(ys[..j])[y] + multiset(ys[j..])[y];
        NoDupCount(xs, y);
        assert false;
      }
    }
  }

  /** Part of a sequence without duplicates has none either. */
  lemma NoDupSubMultiset<T>(xs: seq<T>, ys: seq<T>)
    requires NoDup(xs) && multiset(ys) <= multiset(xs)
    ensures NoDup(ys)
  {
    forall i, j | 0 <= i < j < |ys| ensures ys[i] != ys[j] {
      if ys[i] == ys[j] {
        var y := ys[i];
        assert ys == ys[..j] + ys[j..];
        assert y in ys[..j];
        assert y in ys[j..];
        assert multiset(ys)[y] == multiset(ys[..j])[y] + multiset(ys[j..])[y];
        NoDupCount(xs, y);
        assert false;
      }
    }
  }

  /** The distinct elements of `xs`, each at its first occurrence: what
      `set(xs)` holds, as a sequence. */
  function Dedup<T(==,!new)>(xs: seq<T>): (r: seq<T>)
    ensures NoDup(r)
    ensures forall x :: x in r <==> x in xs
    ensures |r| <= |xs|
  {
    if xs == [] then []
    else
      var d := Dedup(xs[..|xs| - 1]);
      assert forall x :: x in xs <==> x in xs[..|xs| - 1] || x == xs[|xs| - 1] by {
        assert xs == xs[..|xs| - 1] + [xs[|xs| - 1]];
      }
      if xs[|xs| - 1] in d then d else d + [xs[|xs| - 1]]
  }

  /** A sequence without duplicates is exactly as long as the set of its elements. */
  lemma {:induction false} NoDupCardinality<T>(xs: seq<T>)
    requires NoDup(xs)
    ensures |set x | x in xs| == |xs|
  {
    if xs != [] {
      var init := xs[..|xs| - 1];
      var last := xs[|xs| - 1];
      assert NoDup(init) by {
        forall i, j | 0 <= i < j < |init| ensures init[i] != init[j] {
          assert init[i] == xs[i] && init[j] == xs[j];
        }
      }
      NoDupCardinality(init);
      assert last !in init by {
        forall k | 0 <= k < |init| ensures init[k] != last {
          assert init[k] == xs[k];
        }
      }
      assert xs == init + [last];
      assert (set x | x in xs) == (set x | x in init) + {last};
    }
  }

  /** `sum(f(x) for x in xs)`. */
  function SumOf<T>(xs: seq<T>, f: T -> int): int {
    if xs == [] then 0 else f(xs[0]) + SumOf(xs[1..], f)
  }

  lemma {:induction false} SumOfAppend<T>(xs: seq<T>, ys: seq<T>, f: T -> int)
    ensures SumOf(xs + ys, f) == SumOf(xs, f) + SumOf(ys, f)
  {
    if xs != [] {
      assert (xs + ys)[0] == xs[0];
      assert (xs + ys)[1..] == xs[1..] + ys;
      SumOfAppend(xs[1..], ys, f);
    } else {
      assert xs + ys == ys;
    }
  }

  // ---------------------------------------------------------------- sorting

  /** `less` is a strict weak order: asymmetric, and "not less" is transitive. */
  ghost predicate StrictWeakOrder<T(!new)>(less: (T, T) -> bool) {
    && (forall a, b :: less(a, b) ==> !less(b, a))
    && (forall a, b, c :: !less(a, b) && !less(b, c) ==> !less(a, c))
  }

  /** No later element is less than an earlier one. */
  ghost predicate SortedBy<T>(s: seq<T>, less: (T, T) -> bool) {
    forall i, j :: 0 <= i < j < |s| ==> !less(s[j], s[i])
  }

  /** Inserts `x` after every element it is not less than (keeps equal
      elements in arrival order). */
  function Insert<T>(s: seq<T>, x: T, less: (T, T) -> bool): (r: seq<T>)
    ensures multiset(r) == multiset(s) + multiset{x}
  {
    if s == [] || !less(x, s[|s| - 1]) then s + [x]
    else
      var init := s[..|s| - 1];
      assert s == init + [s[|s| - 1]];
      Insert(init, x, less) + [s[|s| - 1]]
  }

  /** Stable insertion sort, as Python's `list.sort(key=...)` orders a list. */
  function SortBy<T>(xs: seq<T>, less: (T, T) -> bool): (r: seq<T>)
    ensures multiset(r) == multiset(xs)
  {
    if xs == [] then []
    else
      assert xs == xs[..|xs| - 1] + [xs[|xs| - 1]];
      Insert(SortBy(xs[..|xs| - 1], less), xs[|xs| - 1], less)
  }

  lemma {:induction false} InsertSorted<T(!new)>(s: seq<T>, x: T, less: (T, T) -> bool)
    requires StrictWeakOrder(less) && SortedBy(s, less)
    ensures SortedBy(Insert(s, x, less), less)
  {
    var r := Insert(s, x, less);
    if s == [] || !less(x, s[|s| - 1]) {
      forall i, j | 0 <= i < j < |r| ensures !less(r[j], r[i]) {
        if j == |s| && i < |s| - 1 {
          assert !less(s[|s| - 1], s[i]);
        }
      }
    } else {
      var init := s[..|s| - 1];
      var last := s[|s| - 1];
      InsertSorted(init, x, less);
      var r' := Insert(init, x, less);
      assert multiset(r') == multiset(init) + multiset{x};
      forall i, j | 0 <= i < j < |r| ensures !less(r[j], r[i]) {
        if j == |r| - 1 {
          assert r[i] == r'[i] && r[i] in multiset(r');
          if r[i] != x {
            assert r[i] in init;
            var k :| 0 <= k < |init| && init[k] == r[i];
            assert !less(s[|s| - 1], s[k]);
          }
        } else {
          assert r[i] == r'[i] && r[j] == r'[j];
        }
      }
    }
  }

  lemma {:induction false} SortBySorted<T(!new)>(xs: seq<T>, less: (T, T) -> bool)
    requires StrictWeakOrder(less)
    ensures SortedBy(SortBy(xs, less), less)
  {
    if xs != [] {
      SortBySorted(xs[..|xs| - 1], less);
      InsertSorted(SortBy(xs[..|xs| - 1], less), xs[|xs| - 1], less);
    }
  }

  // ---------------------------------------------------------------- group-by

  /** The sum of `val` over the elements whose key is `k`: one group of
      pandas' `groupby(key)[val].sum()`. */
  function SumWhere<T, K(==)>(xs: seq<T>, key: T -> Option<K>, k: K, val: T -> int): int {
    if xs == [] then 0
    else (if key(xs[0]) == Some(k) then val(xs[0]) else 0) + SumWhere(xs[1..], key, k, val)
  }

  /** The sum of `val` over the elements whose key is one of `ks`. */
  function SumWhereIn<T, K(==)>(xs: seq<T>, key: T -> Option<K>, ks: seq<K>, val: T -> int): int {
    if xs == [] then 0
    else (if key(xs[0]).Some? && key(xs[0]).value in ks then val(xs[0]) else 0)
         + SumWhereIn(xs[1..], key, ks, val)
  }

  /** The sum of `val` over the elements that have a key (pandas drops NaN keys). */
  function SumKeyed<T, K>(xs: seq<T>, key: T -> Option<K>, val: T -> int): int {
    if xs == [] then 0
    else (if key(xs[0]).Some? then val(xs[0]) else 0) + SumKeyed(xs[1..], key, val)
  }

  /** The sum of the group totals for the keys `ks`. */
  function GroupsTotal<T, K(==)>(xs: seq<T>, key: T -> Option<K>, ks: seq<K>, val: T -> int): int {
    if ks == [] then 0 else SumWhere(xs, key, ks[0], val) + GroupsTotal(xs, key, ks[1..], val)
  }

  /** The keys of the elements, in order, without the missing ones. */
  function KeysOf<T, K(!new)>(xs: seq<T>, key: T -> Option<K>): (r: seq<K>)
    ensures forall k :: k in r <==> exists i :: 0 <= i < |xs| && key(xs[i]) == Some(k)
    ensures |r| <= |xs|
  {
    if xs == [] then []
    else
      var rest := KeysOf(xs[1..], key);
      assert forall k :: (exists i :: 0 <= i < |xs[1..]| && key(xs[1..][i]) == Some(k))
                     <==> (exists i :: 1 <= i < |xs| && key(xs[i]) == Some(k)) by {
        forall k ensures (exists i :: 0 <= i < |xs[1..]| && key(xs[1..][i]) == Some(k))
                     <==> (exists i :: 1 <= i < |xs| && key(xs[i]) == Some(k)) {
          if exists i :: 1 <= i < |xs| && key(xs[i]) == Some(k) {
            var i :| 1 <= i < |xs| && key(xs[i]) == Some(k);
            assert xs[1..][i - 1] == xs[i];
          }
        }
      }
      match key(xs[0])
      case Some(k) => [k] + rest
      case None => rest
  }

  /** The distinct keys present (the groups of a `groupby`), in first-occurrence order. */
  function PresentKeys<T, K(==,!new)>(xs: seq<T>, key: T -> Option<K>): (r: seq<K>)
    ensures NoDup(r) && |r| <= |xs|
    ensures forall k :: k in r <==> exists i :: 0 <= i < |xs| && key(xs[i]) == Some(k)
  {
    Dedup(KeysOf(xs, key))
  }

  lemma {:induction false} SumWhereSplit<T, K>(xs: seq<T>, key: T -> Option<K>, k: K, ks: seq<K>, val: T -> int)
    requires k !in ks
    ensures SumWhere(xs, key, k, val) + SumWhereIn(xs, key, ks, val) == SumWhereIn(xs, key, [k] + ks, val)
  {
    if xs != [] {
      SumWhereSplit(xs[1..], key, k, ks, val);
    }
  }

  /** Summing the per-key sums over distinct keys is summing over every
      element whose key is one of them: each element lands in one group. */
  lemma {:induction false} GroupsPartition<T, K>(xs: seq<T>, key: T -> Option<K>, ks: seq<K>, val: T -> int)
    requires NoDup(ks)
    ensures GroupsTotal(xs, key, ks, val) == SumWhereIn(xs, key, ks, val)
  {
    if ks == [] {
      SumWhereInEmpty(xs, key, ks, val);
    } else {
      var rest := ks[1..];
      assert NoDup(rest) by {
        forall i, j | 0 <= i < j < |rest| ensures rest[i] != rest[j] {
          assert rest[i] == ks[i + 1] && rest[j] == ks[j + 1];
        }
      }
      assert ks[0] !in rest by {
        forall i | 0 <= i < |rest| ensures rest[i] != ks[0] {
          assert rest[i] == ks[i + 1];
        }
      }
      GroupsPartition(xs, key, rest, val);
      SumWhereSplit(xs, key, ks[0], rest, val);
      assert [ks[0]] + rest == ks;
    }
  }

  lemma {:induction false} SumWhereInEmpty<T, K>(xs: seq<T>, key: T -> Option<K>, ks: seq<K>, val: T -> int)
    requires ks == []
    ensures SumWhereIn(xs, key, ks, val) == 0
  {
    if xs != [] {
      SumWhereInEmpty(xs[1..], key, ks, val);
    }
  }

  /** When `ks` holds every key present, the groups account for every keyed element. */
  lemma {:induction false} SumWhereInAll<T, K>(xs: seq<T>, key: T -> Option<K>, ks: seq<K>, val: T -> int)
    requires forall i :: 0 <= i < |xs| && key(xs[i]).Some? ==> key(xs[i]).value in ks
    ensures SumWhereIn(xs, key, ks, val) == SumKeyed(xs, key, val)
  {
    if xs != [] {
      assert forall i :: 0 <= i < |xs[1..]| ==> xs[1..][i] == xs[i + 1];
      SumWhereInAll(xs[1..], key, ks, val);
    }
  }

  /** `groupby(key)[val].sum()` over the keys `ks`: one (key, sum) pair each. */
  function GroupSums<T, K(==)>(xs: seq<T>, key: T -> Option<K>, ks: seq<K>, val: T -> int): (r: seq<(K, int)>)
    ensures |r| == |ks|
    ensures forall i :: 0 <= i < |ks| ==> r[i] == (ks[i], SumWhere(xs, key, ks[i], val))
  {
    if ks == [] then [] else [(ks[0], SumWhere(xs, key, ks[0], val))] + GroupSums(xs, key, ks[1..], val)
  }

  /** The sum in a (key, sum) pair. */
  function PairValue<K>(p: (K, int)): int {
    p.1
  }

  /** The group sums over distinct keys add up to the sum over the elements with one of those keys. */
  lemma {:induction false} GroupSumsTotal<T, K>(xs: seq<T>, key: T -> Option<K>, ks: seq<K>, val: T -> int)
    requires NoDup(ks)
    ensures SumOf(GroupSums(xs, key, ks, val), PairValue) == SumWhereIn(xs, key, ks, val)
  {
    GroupsPartition(xs, key, ks, val);
    GroupSumsIsGroupsTotal(xs, key, ks, val);
  }

  lemma {:induction false} GroupSumsIsGroupsTotal<T, K>(xs: seq<T>, key: T -> Option<K>, ks: seq<K>, val: T -> int)
    ensures SumOf(GroupSums(xs, key, ks, val), PairValue) == GroupsTotal(xs, key, ks, val)
  {
    if ks != [] {
      GroupSumsIsGroupsTotal(xs, key, ks[1..], val);
    }
  }

  /** When every element has a key, nothing is dropped by the grouping. */
  lemma {:induction false} SumKeyedAll<T, K>(xs: seq<T>, key: T -> Option<K>, val: T -> int)
    requires forall i :: 0 <= i < |xs| ==> key(xs[i]).Some?
    ensures SumKeyed(xs, key, val) == SumOf(xs, val)
  {
    if xs != [] {
      assert forall i :: 0 <= i < |xs[1..]| ==> xs[1..][i] == xs[i + 1];
      SumKeyedAll(xs[1..], key, val);
    }
  }

  /** The groups of a `groupby`, sorted by `less` as pandas sorts its keys. */
  function SortedKeys<T, K(==,!new)>(xs: seq<T>, key: T -> Option<K>, less: (K, K) -> bool): seq<K> {
    SortBy(PresentKeys(xs, key), less)
  }

  /** Each key present appears once, in order. */
  lemma SortedKeysFacts<T, K(!new)>(xs: seq<T>, key: T -> Option<K>, less: (K, K) -> bool)
    requires StrictWeakOrder(less)
    ensures var keys := SortedKeys(xs, key, less);
      && NoDup(keys)
      && |keys| == |PresentKeys(xs, key)|
      && (forall k :: k in keys <==> exists i :: 0 <= i < |xs| && key(xs[i]) == Some(k))
      && SortedBy(keys, less)
  {
    var present := PresentKeys(xs, key);
    var keys := SortedKeys(xs, key, less);
    NoDupPermutation(present, keys);
    assert |keys| == |multiset(keys)| == |multiset(present)| == |present|;
    assert forall k :: k in keys <==> k in multiset(present);
    SortBySorted(present, less);
  }

  /** The keys of (key, sum) pairs. */
  function GroupKeys<K>(groups: seq<(K, int)>): (r: seq<K>)
    ensures |r| == |groups| && forall i :: 0 <= i < |groups| ==> r[i] == groups[i].0
  {
    seq(|groups|, i requires 0 <= i < |groups| => groups[i].0)
  }

  /** The group sums carry the keys they were built from. */
  lemma GroupSumsKeys<T, K>(xs: seq<T>, key: T -> Option<K>, ks: seq<K>, val: T -> int)
    ensures GroupKeys(GroupSums(xs, key, ks, val)) == ks
  {
  }

  /** The sorted keys are the keys present. */
  lemma SortedKeysMembers<T, K(!new)>(xs: seq<T>, key: T -> Option<K>, less: (K, K) -> bool)
    ensures forall k :: k in SortedKeys(xs, key, less) <==> exists j :: 0 <= j < |xs| && key(xs[j]) == Some(k)
  {
    var present := PresentKeys(xs, key);
    var keys := SortedKeys(xs, key, less);
    forall k ensures k in keys <==> k in present {
      assert k in keys <==> k in multiset(keys);
      assert k in present <==> k in multiset(present);
    }
  }

  /** Under a total order the sorted keys strictly increase. */
  lemma SortedKeysIncrease<T, K(!new)>(xs: seq<T>, key: T -> Option<K>, less: (K, K) -> bool)
    requires StrictWeakOrder(less)
    requires forall a, b :: a == b || less(a, b) || less(b, a)
    ensures var keys := SortedKeys(xs, key, less);
      forall i, j :: 0 <= i < j < |keys| ==> less(keys[i], keys[j])
  {
    var keys := SortedKeys(xs, key, less);
    SortedKeysFacts(xs, key, less);
    forall i, j | 0 <= i < j < |keys| ensures less(keys[i], keys[j]) {
      assert keys[i] != keys[j];
      assert !less(keys[j], keys[i]);
    }
  }

  /** Larger score first. */
  function ByScore<T>(score: T -> int): (T, T) -> bool {
    (a: T, b: T) => score(a) > score(b)
  }

  lemma ByScoreIsStrictWeak<T(!new)>(score: T -> int)
    ensures StrictWeakOrder(ByScore(score))
  {
  }

  /** `sort_values(score, ascending=False).head(n)`. */
  function TopN<T>(xs: seq<T>, score: T -> int, n: nat): (r: seq<T>) {
    var ranked := SortBy(xs, ByScore(score));
    if |ranked| <= n then ranked else ranked[..n]
  }

  /** The first `min(n, |xs|)` elements of `xs` by score, largest first: each
      element of `xs` is kept at most as often as it occurs, and no element
      left out scores more than one kept. */
  lemma TopNFacts<T(!new)>(xs: seq<T>, score: T -> int, n: nat)
    ensures var r := TopN(xs, score, n);
      && |r| == (if |xs| <= n then |xs| else n)
      && multiset(r) <= multiset(xs)
      && (NoDup(xs) ==> NoDup(r))
      && (forall i, j :: 0 <= i < j < |r| ==> score(r[i]) >= score(r[j]))
      && (forall x :: x in r ==> x in xs)
      && (forall x :: x in xs && x !in r ==> forall y :: y in r ==> score(y) >= score(x))
  {
    TopNCount(xs, score, n);
    TopNOrder(xs, score, n);
  }

  /** How many elements `TopN` keeps, and that it keeps no duplicate of a
      sequence that has none. */
  lemma TopNCount<T(!new)>(xs: seq<T>, score: T -> int, n: nat)
    ensures var r := TopN(xs, score, n);
      && |r| == (if |xs| <= n then |xs| else n)
      && multiset(r) <= multiset(xs)
      && (NoDup(xs) ==> NoDup(r))
  {
    var ranked := SortBy(xs, ByScore(score));
    var r := TopN(xs, score, n);
    assert |ranked| == |multiset(ranked)| == |multiset(xs)| == |xs|;
    assert ranked == r + ranked[|r|..];
    if NoDup(xs) {
      NoDupSubMultiset(xs, r);
    }
  }

  /** `TopN` keeps elements of `xs`, largest score first, and leaves out
      none that scores more than one kept. */
  lemma TopNOrder<T(!new)>(xs: seq<T>, score: T -> int, n: nat)
    ensures var r := TopN(xs, score, n);
      && (forall i, j :: 0 <= i < j < |r| ==> score(r[i]) >= score(r[j]))
      && (forall x :: x in r ==> x in xs)
      && (forall x :: x in xs && x !in r ==> forall y :: y in r ==> score(y) >= score(x))
  {
    var ranked := SortBy(xs, ByScore(score));
    var r := TopN(xs, score, n);
    ByScoreIsStrictWeak(score);
    SortBySorted(xs, ByScore(score));
    assert r == ranked[..|r|];
    forall x | x in r ensures x in xs {
      assert x in multiset(ranked);
    }
    forall x, y | x in xs && x !in r && y in r ensures score(y) >= score(x) {
      assert x in multiset(ranked);
      var j :| 0 <= j < |ranked| && ranked[j] == x;
      var m :| 0 <= m < |r| && r[m] == y;
      assert j >= |r|;
      assert !ByScore(score)(ranked[j], ranked[m]);
    }
  }

  // ---------------------------------------------------------------- argmax

  /** pandas' `idxmax`: the position of the first largest value. */
  function ArgMaxFirst<T>(xs: seq<T>, f: T -> int): (i: nat)
    requires xs != []
    ensures i < |xs|
    ensures forall j :: 0 <= j < |xs| ==> f(xs[j]) <= f(xs[i])
    ensures forall j :: 0 <= j < i ==> f(xs[j]) < f(xs[i])
  {
    if |xs| == 1 then 0
    else
      var i := ArgMaxFirst(xs[..|xs| - 1], f);
      if f(xs[|xs| - 1]) > f(xs[i]) then |xs| - 1 else i
  }

  /** `groupby(key)[...].sum().idxmax()`: the first key, in sorted order,
      whose value `f` is largest; none when no element has a key. */
  function FirstMaxKey<T, K(==,!new)>(xs: seq<T>, key: T -> Option<K>, less: (K, K) -> bool, f: K -> int): Option<K> {
    var keys := SortedKeys(xs, key, less);
    if keys == [] then None else Some(keys[ArgMaxFirst(keys, f)])
  }

  lemma SortedKeysCover<T, K(!new)>(xs: seq<T>, key: T -> Option<K>, less: (K, K) -> bool)
    ensures forall i :: 0 <= i < |xs| && key(xs[i]).Some? ==> key(xs[i]).value in SortedKeys(xs, key, less)
  {
    var keys := SortedKeys(xs, key, less);
    assert forall k :: k in keys <==> k in multiset(PresentKeys(xs, key));
    forall i | 0 <= i < |xs| && key(xs[i]).Some? ensures key(xs[i]).value in keys {
    }
  }

  /** In a sorted sequence, the first maximum beats every element sorted before it. */
  lemma ArgMaxFirstSorted<K(!new)>(keys: seq<K>, less: (K, K) -> bool, f: K -> int)
    requires StrictWeakOrder(less) && SortedBy(keys, less) && keys != []
    ensures var m := keys[ArgMaxFirst(keys, f)];
      forall k :: k in keys ==> f(k) <= f(m) && (less(k, m) ==> f(k) < f(m))
  {
    var i := ArgMaxFirst(keys, f);
    forall k | k in keys ensures less(k, keys[i]) ==> f(k) < f(keys[i]) {
      var j :| 0 <= j < |keys| && keys[j] == k;
      assert i < j ==> !less(keys[j], keys[i]);
      assert !less(keys[i], keys[i]);
    }
  }

  lemma FirstMaxKeyFacts<T, K(!new)>(xs: seq<T>, key: T -> Option<K>, less: (K, K) -> bool, f: K -> int)
    requires StrictWeakOrder(less)
    ensures var m := FirstMaxKey(xs, key, less, f);
      && (m.None? <==> forall i :: 0 <= i < |xs| ==> key(xs[i]).None?)
      && (m.Some? ==> exists i :: 0 <= i < |xs| && key(xs[i]) == m)
      && (m.Some? ==> forall k :: (exists i :: 0 <= i < |xs| && key(xs[i]) == Some(k)) ==>
            f(k) <= f(m.value) && (less(k, m.value) ==> f(k) < f(m.value)))
  {
    var keys := SortedKeys(xs, key, less);
    SortedKeysMembers(xs, key, less);
    if keys != [] {
      SortBySorted(PresentKeys(xs, key), less);
      ArgMaxFirstSorted(keys, less, f);
      assert keys[ArgMaxFirst(keys, f)] in keys;
    }
  }
}
