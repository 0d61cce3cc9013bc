/** Sequence vocabulary shared by the dashboard model.

    JavaScript's `null`/`undefined` become `Option`; `Array.prototype.filter`,
    `map` and `reduce` become functions that peel off the LAST element, so that
    a left-to-right loop over a prefix `s[..i]` extends exactly what they
    compute.  `Dedup` is the insertion-ordered `new Set(...)` /
    `new Map(...).keys()`, and `GroupSum` is one bucket of a
    `Map<key, number>` filled by `+=`. */
module Seqs {

  datatype Option<+T> = None | Some(value: T) {
    /** `x ?? default`, `x || default` for a value that is never falsy otherwise. */
    function GetOr(default: T): T {
      match this
      case Some(v) => v
      case None => default
    }
  }

  predicate Distinct<T(==)>(s: seq<T>) {
    forall i, j :: 0 <= i < j < |s| ==> s[i] != s[j]
  }

  // ---------------------------------------------------------------------------
  // filter

  /** `s.filter(p)`. */
  function Filter<T>(s: seq<T>, p: T -> bool): (r: seq<T>)
    ensures |r| <= |s|
    ensures forall i :: 0 <= i < |r| ==> r[i] in s && p(r[i])
    ensures forall i :: 0 <= i < |s| && p(s[i]) ==> s[i] in r
  {
    if s == [] then []
    else
      assert s == s[..|s| - 1] + [s[|s| - 1]];
      Filter(s[..|s| - 1], p) + (if p(s[|s| - 1]) then [s[|s| - 1]] else [])
  }

  /** `s.filter(p).length`. */
  function Count<T>(s: seq<T>, p: T -> bool): (n: nat)
    ensures n <= |s|
  {
    |Filter(s, p)|
  }

  lemma {:induction false} FilterAppend<T>(a: seq<T>, b: seq<T>, p: T -> bool)
    ensures Filter(a + b, p) == Filter(a, p) + Filter(b, p)
    decreases |b|
  {
    if b == [] {
      assert a + b == a;
    } else {
      var b', x := b[..|b| - 1], b[|b| - 1];
      assert a + b == (a + b') + [x];
      assert b == b' + [x];
      FilterAppend(a, b', p);
    }
  }

  lemma FilterSnoc<T>(s: seq<T>, x: T, p: T -> bool)
    ensures Filter(s + [x], p) == Filter(s, p) + (if p(x) then [x] else [])
  {
    assert (s + [x])[..|s + [x]| - 1] == s;
  }

  /** Predicates that agree on the elements filter alike. */
  lemma {:induction false} FilterExt<T>(s: seq<T>, p: T -> bool, q: T -> bool)
    requires forall i :: 0 <= i < |s| ==> p(s[i]) == q(s[i])
    ensures Filter(s, p) == Filter(s, q)
    decreases |s|
  {
    if s != [] {
      FilterExt(s[..|s| - 1], p, q);
    }
  }

  /** Every element kept by the filter satisfies it; when all do, nothing is dropped. */
  lemma {:induction false} FilterKeepsAll<T>(s: seq<T>, p: T -> bool)
    requires forall x :: x in s ==> p(x)
    ensures Filter(s, p) == s
    decreases |s|
  {
    if s != [] {
      assert s == s[..|s| - 1] + [s[|s| - 1]];
      FilterKeepsAll(s[..|s| - 1], p);
    }
  }

  lemma FilterIdempotent<T>(s: seq<T>, p: T -> bool)
    ensures Filter(Filter(s, p), p) == Filter(s, p)
  {
    FilterKeepsAll(Filter(s, p), p);
  }

  /** Filtering by `p` and then by `q` is filtering once by their conjunction. */
  lemma {:induction false} FilterCompose<T>(s: seq<T>, p: T -> bool, q: T -> bool)
    ensures Filter(Filter(s, p), q) == Filter(s, x => p(x) && q(x))
    decreases |s|
  {
    if s != [] {
      var s', x := s[..|s| - 1], s[|s| - 1];
      FilterCompose(s', p, q);
      FilterAppend(Filter(s', p), if p(x) then [x] else [], q);
    }
  }

  /** `r` is an order-preserving subsequence of `s`. */
  ghost predicate IsSubsequence<T>(r: seq<T>, s: seq<T>)
    decreases |s|
  {
    if r == [] then true
    else if s == [] then false
    else
      || (r[|r| - 1] == s[|s| - 1] && IsSubsequence(r[..|r| - 1], s[..|s| - 1]))
      || IsSubsequence(r, s[..|s| - 1])
  }

  lemma {:induction false} FilterIsSubsequence<T>(s: seq<T>, p: T -> bool)
    ensures IsSubsequence(Filter(s, p), s)
    decreases |s|
  {
    if s != [] {
      var s', x := s[..|s| - 1], s[|s| - 1];
      FilterIsSubsequence(s', p);
      var r := Filter(s, p);
      if p(x) {
        assert r[..|r| - 1] == Filter(s', p);
      } else if r != [] {
        assert r == Filter(s', p);
        assert IsSubsequence(r, s[..|s| - 1]);
      }
    }
  }

  // ---------------------------------------------------------------------------
  // map and reduce

  /** `s.map(f)`. */
  function MapSeq<T, U>(s: seq<T>, f: T -> U): (r: seq<U>)
    ensures |r| == |s|
    ensures forall i :: 0 <= i < |s| ==> r[i] == f(s[i])
  {
    if s == [] then [] else MapSeq(s[..|s| - 1], f) + [f(s[|s| - 1])]
  }

  /** The values of `s.filter(p).map(f)` are the images of the kept elements. */
  lemma FilterMapMember<T, U>(s: seq<T>, p: T -> bool, f: T -> U, y: U)
    ensures y in MapSeq(Filter(s, p), f) <==> exists x :: x in s && p(x) && f(x) == y
  {
    var kept := Filter(s, p);
    var m := MapSeq(kept, f);
    if y in m {
      var i :| 0 <= i < |m| && m[i] == y;
      assert kept[i] in s && p(kept[i]) && f(kept[i]) == y;
    }
    if exists x :: x in s && p(x) && f(x) == y {
      var x :| x in s && p(x) && f(x) == y;
      var i :| 0 <= i < |kept| && kept[i] == x;
      assert m[i] == y;
    }
  }

  /** `s.reduce((a, x) => a + f(x), 0)`. */
  function SumOf<T>(s: seq<T>, f: T -> int): int {
    if s == [] then 0 else SumOf(s[..|s| - 1], f) + f(s[|s| - 1])
  }

  lemma {:induction false} SumAppend<T>(a: seq<T>, b: seq<T>, f: T -> int)
    ensures SumOf(a + b, f) == SumOf(a, f) + SumOf(b, f)
    decreases |b|
  {
    if b == [] {
      assert a + b == a;
    } else {
      var b', x := b[..|b| - 1], b[|b| - 1];
      assert a + b == (a + b') + [x];
      assert (a + b)[..|a + b| - 1] == a + b';
      SumAppend(a, b', f);
    }
  }

  /** Pointwise `f <= g` gives `sum f <= sum g`. */
  lemma {:induction false} SumMonotone<T>(s: seq<T>, f: T -> int, g: T -> int)
    requires forall x :: x in s ==> f(x) <= g(x)
    ensures SumOf(s, f) <= SumOf(s, g)
    decreases |s|
  {
    if s != [] {
      assert s[|s| - 1] in s;
      forall x | x in s[..|s| - 1] ensures f(x) <= g(x) {
        assert x in s;
      }
      SumMonotone(s[..|s| - 1], f, g);
    }
  }

  /** A sum of non-negative values is non-negative. */
  lemma {:induction false} SumNonNegative<T>(s: seq<T>, f: T -> int)
    requires forall x :: x in s ==> 0 <= f(x)
    ensures 0 <= SumOf(s, f)
    decreases |s|
  {
    if s != [] {
      assert s[|s| - 1] in s;
      forall x | x in s[..|s| - 1] ensures 0 <= f(x) {
        assert x in s;
      }
      SumNonNegative(s[..|s| - 1], f);
    }
  }

  /** Summing `g` over `s.map(f)` is summing `h` over `s` when `h` is `g`
      after `f`. */
  lemma {:induction false} SumOfMapped<T, U>(s: seq<T>, f: T -> U, g: U -> int, h: T -> int)
    requires forall x :: g(f(x)) == h(x)
    ensures SumOf(MapSeq(s, f), g) == SumOf(s, h)
    decreases |s|
  {
    if s != [] {
      var m := MapSeq(s, f);
      assert m[..|m| - 1] == MapSeq(s[..|s| - 1], f);
      SumOfMapped(s[..|s| - 1], f, g, h);
    }
  }

  function SumWhere<T>(s: seq<T>, p: T -> bool, f: T -> int): int {
    if s == [] then 0
    else SumWhere(s[..|s| - 1], p, f) + (if p(s[|s| - 1]) then f(s[|s| - 1]) else 0)
  }

  /** Summing only the elements that satisfy `p` is summing over `s.filter(p)`. */
  lemma {:induction false} SumWhereIsSumOfFilter<T>(s: seq<T>, p: T -> bool, f: T -> int)
    ensures SumWhere(s, p, f) == SumOf(Filter(s, p), f)
    decreases |s|
  {
    if s != [] {
      var s', x := s[..|s| - 1], s[|s| - 1];
      SumWhereIsSumOfFilter(s', p, f);
      SumAppend(Filter(s', p), if p(x) then [x] else [], f);
      if p(x) {
        assert SumOf([x], f) == SumOf([], f) + f(x);
      }
    }
  }

  // ---------------------------------------------------------------------------
  // insertion-ordered distinct values, and grouped sums

  /** `[...new Set(s)]`: the distinct values of `s` in order of first occurrence. */
  function Dedup<T(==)>(s: seq<T>): (r: seq<T>)
    ensures Distinct(r)
    ensures forall i :: 0 <= i < |r| ==> r[i] in s
    ensures forall i :: 0 <= i < |s| ==> s[i] in r
  {
    if s == [] then []
    else
      var d := Dedup(s[..|s| - 1]);
      assert s == s[..|s| - 1] + [s[|s| - 1]];
      if s[|s| - 1] in d then d else d + [s[|s| - 1]]
  }

  /** The bucket of key `k` in a map filled by `m.set(key(x), (m.get(key(x)) || 0) + val(x))`. */
  function GroupSum<T, K(==)>(s: seq<T>, key: T -> K, k: K, val: T -> int): int {
    if s == [] then 0
    else GroupSum(s[..|s| - 1], key, k, val) + (if key(s[|s| - 1]) == k then val(s[|s| - 1]) else 0)
  }

  lemma {:induction false} GroupSumAbsent<T, K>(s: seq<T>, key: T -> K, k: K, val: T -> int)
    requires forall i :: 0 <= i < |s| ==> key(s[i]) != k
    ensures GroupSum(s, key, k, val) == 0
    decreases |s|
  {
    if s != [] {
      GroupSumAbsent(s[..|s| - 1], key, k, val);
    }
  }

  /** The grouped sums, added up over a list of keys. */
  function SumOverKeys<T, K(==)>(ks: seq<K>, s: seq<T>, key: T -> K, val: T -> int): int {
    if ks == [] then 0
    else SumOverKeys(ks[..|ks| - 1], s, key, val) + GroupSum(s, key, ks[|ks| - 1], val)
  }

  lemma {:induction false} SumOverKeysStep<T, K>(ks: seq<K>, s: seq<T>, x: T, key: T -> K, val: T -> int)
    requires Distinct(ks)
    ensures SumOverKeys(ks, s + [x], key, val)
         == SumOverKeys(ks, s, key, val) + (if key(x) in ks then val(x) else 0)
    decreases |ks|
  {
    if ks != [] {
      var ks' := ks[..|ks| - 1];
      assert Distinct(ks');
      SumOverKeysStep(ks', s, x, key, val);
      assert (s + [x])[..|s + [x]| - 1] == s;
      assert key(x) in ks <==> key(x) in ks' || key(x) == ks[|ks| - 1];
      assert key(x) == ks[|ks| - 1] ==> key(x) !in ks';
    }
  }

  /** Partition: the groups of `s` by `key`, in first-occurrence order, add up to the whole sum. */
  lemma {:induction false} GroupsPartitionSum<T, K>(s: seq<T>, key: T -> K, val: T -> int)
    ensures SumOverKeys(Dedup(MapSeq(s, key)), s, key, val) == SumOf(s, val)
    decreases |s|
  {
    if s != [] {
      var s', x := s[..|s| - 1], s[|s| - 1];
      assert s == s' + [x];
      GroupsPartitionSum(s', key, val);
      PartitionStep(s', x, key, val);
    }
  }

  lemma PartitionStep<T, K>(s: seq<T>, x: T, key: T -> K, val: T -> int)
    requires SumOverKeys(Dedup(MapSeq(s, key)), s, key, val) == SumOf(s, val)
    ensures SumOverKeys(Dedup(MapSeq(s + [x], key)), s + [x], key, val) == SumOf(s + [x], val)
  {
    SumOfSnoc(s, x, val);
    KeysStep(s, x, key, val);
  }

  lemma SumOfSnoc<T>(s: seq<T>, x: T, val: T -> int)
    ensures SumOf(s + [x], val) == SumOf(s, val) + val(x)
  {
    assert (s + [x])[..|s + [x]| - 1] == s;
  }

  /** Adding one element adds its value to exactly one group, old or new. */
  lemma KeysStep<T, K>(s: seq<T>, x: T, key: T -> K, val: T -> int)
    ensures SumOverKeys(Dedup(MapSeq(s + [x], key)), s + [x], key, val)
         == SumOverKeys(Dedup(MapSeq(s, key)), s, key, val) + val(x)
  {
    var ks := Dedup(MapSeq(s, key));
    SumOverKeysStep(ks, s, x, key, val);
    DedupSnoc(s, x, key);
    if key(x) !in ks {
      NewKeyStep(ks, s, x, key, val);
    }
  }

  lemma DedupSnoc<T, K>(s: seq<T>, x: T, key: T -> K)
    ensures var ks := Dedup(MapSeq(s, key));
            Dedup(MapSeq(s + [x], key)) == if key(x) in ks then ks else ks + [key(x)]
  {
    var m := MapSeq(s + [x], key);
    assert m == MapSeq(s, key) + [key(x)];
    assert m[..|m| - 1] == MapSeq(s, key);
  }

  /** A key met for the first time collects exactly the new element. */
  lemma NewKeyStep<T, K>(ks: seq<K>, s: seq<T>, x: T, key: T -> K, val: T -> int)
    requires key(x) !in Dedup(MapSeq(s, key)) && ks == Dedup(MapSeq(s, key))
    ensures SumOverKeys(ks + [key(x)], s + [x], key, val) == SumOverKeys(ks, s + [x], key, val) + val(x)
  {
    forall i | 0 <= i < |s| ensures key(s[i]) != key(x) {
      assert MapSeq(s, key)[i] == key(s[i]);
    }
    GroupSumAbsent(s, key, key(x), val);
    assert (s + [x])[..|s + [x]| - 1] == s;
    assert GroupSum(s + [x], key, key(x), val) == val(x);
    assert (ks + [key(x)])[..|ks + [key(x)]| - 1] == ks;
  }

  /** A key absent from the first-occurrence keys has an empty group. */
  lemma GroupSumFresh<T, K>(s: seq<T>, key: T -> K, k: K, val: T -> int)
    requires k !in Dedup(MapSeq(s, key))
    ensures GroupSum(s, key, k, val) == 0
  {
    forall i | 0 <= i < |s| ensures key(s[i]) != k {
      assert MapSeq(s, key)[i] == key(s[i]);
    }
    GroupSumAbsent(s, key, k, val);
  }

  lemma GroupSumSnoc<T, K>(s: seq<T>, x: T, key: T -> K, k: K, val: T -> int)
    ensures GroupSum(s + [x], key, k, val) == GroupSum(s, key, k, val) + (if key(x) == k then val(x) else 0)
  {
    assert (s + [x])[..|s + [x]| - 1] == s;
  }

  /** `SumOverKeys` is the sum, over the keys, of their groups. */
  lemma {:induction false} SumOverKeysIsSumOf<T, K>(ks: seq<K>, s: seq<T>, key: T -> K, val: T -> int)
    ensures SumOverKeys(ks, s, key, val) == SumOf(ks, (k: K) => GroupSum(s, key, k, val))
    decreases |ks|
  {
    if ks != [] {
      SumOverKeysIsSumOf(ks[..|ks| - 1], s, key, val);
    }
  }

  function Id(n: int): int {
    n
  }

  /** Summing the mapped values is summing `f` over the sequence. */
  lemma {:induction false} SumOfMapSeq<T>(s: seq<T>, f: T -> int)
    ensures SumOf(MapSeq(s, f), Id) == SumOf(s, f)
    decreases |s|
  {
    if s != [] {
      var m := MapSeq(s, f);
      assert m[..|m| - 1] == MapSeq(s[..|s| - 1], f);
      SumOfMapSeq(s[..|s| - 1], f);
    }
  }

  /** `s.slice(0, n)`. */
  function Take<T>(s: seq<T>, n: nat): (r: seq<T>)
    ensures |r| == if n < |s| then n else |s|
    ensures r <= s
  {
    if n < |s| then s[..n] else s
  }
}
