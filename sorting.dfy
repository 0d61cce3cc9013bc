/** `Array.prototype.sort` with a comparator, as the dashboard uses it.

    A comparator `cmp` is read through `le(a, b) := cmp(a, b) <= 0`.  The
    ECMAScript sort is stable, so it is modelled by a stable insertion sort:
    `SortBy` as a function, and `SortInPlace` as the in-place method on an
    array, proved to leave exactly `SortBy` of the old contents.  For a total
    preorder `le` the result is sorted, a permutation, and keeps the input
    order of elements that compare equal. */
module Sorting {
  import opened Seqs

  /** `le` is total and transitive, which is what `localeCompare` and a
      numeric difference give. */
  ghost predicate TotalPreorder<T(!new)>(le: (T, T) -> bool) {
    && (forall a: T, b: T :: le(a, b) || le(b, a))
    && (forall a: T, b: T, c: T {:trigger le(a, b), le(b, c)} :: le(a, b) && le(b, c) ==> le(a, c))
  }

  predicate Sorted<T>(le: (T, T) -> bool, s: seq<T>) {
    forall i, j :: 0 <= i < j < |s| ==> le(s[i], s[j])
  }

  /** `a` and `b` compare equal: neither goes before the other. */
  function EquivTo<T>(le: (T, T) -> bool, a: T): T -> bool {
    b => le(a, b) && le(b, a)
  }

  /** `x` placed into `s` right after the last element that is `le` it: the
      shifting step of an insertion sort, scanning from the back. */
  function Insert<T>(le: (T, T) -> bool, x: T, s: seq<T>): (r: seq<T>)
    ensures |r| == |s| + 1
    decreases |s|
  {
    if s == [] || le(s[|s| - 1], x) then s + [x]
    else
      assert s == s[..|s| - 1] + [s[|s| - 1]];
      Insert(le, x, s[..|s| - 1]) + [s[|s| - 1]]
  }

  /** Inserting adds exactly the inserted element. */
  lemma {:induction false} InsertPermutes<T>(le: (T, T) -> bool, x: T, s: seq<T>)
    ensures multiset(Insert(le, x, s)) == multiset(s) + multiset{x}
    decreases |s|
  {
    if s != [] && !le(s[|s| - 1], x) {
      assert s == s[..|s| - 1] + [s[|s| - 1]];
      InsertPermutes(le, x, s[..|s| - 1]);
    }
  }

  /** The stable sort of `s` by `le`. */
  function SortBy<T>(le: (T, T) -> bool, s: seq<T>): (r: seq<T>)
    ensures multiset(r) == multiset(s)
    ensures |r| == |s|
    decreases |s|
  {
    if s == [] then []
    else
      assert s == s[..|s| - 1] + [s[|s| - 1]];
      InsertPermutes(le, s[|s| - 1], SortBy(le, s[..|s| - 1]));
      Insert(le, s[|s| - 1], SortBy(le, s[..|s| - 1]))
  }

  lemma {:induction false} InsertSorted<T(!new)>(le: (T, T) -> bool, x: T, s: seq<T>)
    requires TotalPreorder(le) && Sorted(le, s)
    ensures Sorted(le, Insert(le, x, s))
    decreases |s|
  {
    if s != [] && !le(s[|s| - 1], x) {
      var s', y := s[..|s| - 1], s[|s| - 1];
      InsertSorted(le, x, s');
      InsertPermutes(le, x, s');
      var r' := Insert(le, x, s');
      forall k | 0 <= k < |r'| ensures le(r'[k], y) {
        assert r'[k] in multiset(r');
        if r'[k] != x {
          assert r'[k] in multiset(s');
          var m :| 0 <= m < |s'| && s'[m] == r'[k];
          assert s[m] == s'[m];
        }
      }
    }
  }

  /** The sort's result is ordered by `le`. */
  lemma {:induction false} SortBySorted<T(!new)>(le: (T, T) -> bool, s: seq<T>)
    requires TotalPreorder(le)
    ensures Sorted(le, SortBy(le, s))
    decreases |s|
  {
    if s != [] {
      SortBySorted(le, s[..|s| - 1]);
      InsertSorted(le, s[|s| - 1], SortBy(le, s[..|s| - 1]));
    }
  }

  lemma FilterSingle<T>(x: T, p: T -> bool)
    ensures Filter([x], p) == if p(x) then [x] else []
  {
    assert [x][..0] == [];
  }

  /** Two elements equal to the same `y` are equal to each other. */
  lemma EquivTransitive<T(!new)>(le: (T, T) -> bool, x: T, z: T, y: T)
    requires TotalPreorder(le) && EquivTo(le, y)(x) && EquivTo(le, y)(z)
    ensures le(z, x)
  {
    assert le(z, y) && le(y, x);
  }

  /** Inserting into a sorted sequence keeps each class of equal elements in
      order, with `x` last in its class. */
  lemma {:induction false} InsertStable<T(!new)>(le: (T, T) -> bool, x: T, s: seq<T>, y: T)
    requires TotalPreorder(le) && Sorted(le, s)
    ensures Filter(Insert(le, x, s), EquivTo(le, y)) == Filter(s, EquivTo(le, y)) + Filter([x], EquivTo(le, y))
    decreases |s|
  {
    var e := EquivTo(le, y);
    if s == [] || le(s[|s| - 1], x) {
      assert Insert(le, x, s) == s + [x];
      FilterAppend(s, [x], e);
      assert Filter(Insert(le, x, s), e) == Filter(s, e) + Filter([x], e);
    } else {
      var s', z := s[..|s| - 1], s[|s| - 1];
      assert s == s' + [z];
      assert Insert(le, x, s) == Insert(le, x, s') + [z];
      assert Sorted(le, s');
      InsertStable(le, x, s', y);
      FilterAppend(Insert(le, x, s'), [z], e);
      FilterAppend(s', [z], e);
      FilterSingle(x, e);
      FilterSingle(z, e);
      var a, fx, fz := Filter(s', e), Filter([x], e), Filter([z], e);
      assert Filter(Insert(le, x, s), e) == a + fx + fz;
      assert Filter(s, e) == a + fz;
      if e(x) && e(z) {
        EquivTransitive(le, x, z, y);
        assert false;
      }
      SwapWhenOneEmpty(a, fx, fz);
    }
  }

  lemma SwapWhenOneEmpty<T>(a: seq<T>, b: seq<T>, c: seq<T>)
    requires b == [] || c == []
    ensures a + b + c == a + c + b
  {
    if b == [] {
      assert a + b == a && a + c + b == a + c;
    } else {
      assert a + c == a && a + b + c == a + b;
    }
  }

  /** Stability: for every element `y`, the elements that compare equal to
      `y` appear in the result in the same order as in the input. */
  lemma {:induction false} SortByStable<T(!new)>(le: (T, T) -> bool, s: seq<T>, y: T)
    requires TotalPreorder(le)
    ensures Filter(SortBy(le, s), EquivTo(le, y)) == Filter(s, EquivTo(le, y))
    decreases |s|
  {
    if s != [] {
      var s', x := s[..|s| - 1], s[|s| - 1];
      assert s == s' + [x];
      SortByStable(le, s', y);
      SortBySorted(le, s');
      InsertStable(le, x, SortBy(le, s'), y);
      FilterAppend(s', [x], EquivTo(le, y));
    }
  }

  /** Inserting adds the inserted element's value to any sum. */
  lemma {:induction false} InsertSum<T>(le: (T, T) -> bool, x: T, s: seq<T>, f: T -> int)
    ensures SumOf(Insert(le, x, s), f) == SumOf(s, f) + f(x)
    decreases |s|
  {
    if s == [] || le(s[|s| - 1], x) {
      SumOfSnoc(s, x, f);
    } else {
      var s', z := s[..|s| - 1], s[|s| - 1];
      assert s == s' + [z];
      InsertSum(le, x, s', f);
      SumOfSnoc(Insert(le, x, s'), z, f);
      SumOfSnoc(s', z, f);
    }
  }

  /** Sorting does not change a sum: the `reduce` totals may run over the
      sorted rows. */
  lemma {:induction false} SortBySum<T>(le: (T, T) -> bool, s: seq<T>, f: T -> int)
    ensures SumOf(SortBy(le, s), f) == SumOf(s, f)
    decreases |s|
  {
    if s != [] {
      var s', x := s[..|s| - 1], s[|s| - 1];
      assert s == s' + [x];
      SortBySum(le, s', f);
      InsertSum(le, x, SortBy(le, s'), f);
      SumOfSnoc(s', x, f);
    }
  }

  /** One shifting step of the insertion: `x` goes before `t[j - 1]`. */
  lemma InsertShift<T>(le: (T, T) -> bool, x: T, t: seq<T>, j: int)
    requires 0 < j <= |t| && !le(t[j - 1], x)
    ensures Insert(le, x, t[..j]) + t[j..] == Insert(le, x, t[..j - 1]) + t[j - 1..]
  {
    assert t[..j][..j - 1] == t[..j - 1];
    assert t[j - 1..] == [t[j - 1]] + t[j..];
  }

  /** The insertion stops at `j`: `x` goes right after `t[j - 1]`. */
  lemma InsertStop<T>(le: (T, T) -> bool, x: T, t: seq<T>, j: int)
    requires 0 <= j <= |t| && (j == 0 || le(t[j - 1], x))
    ensures Insert(le, x, t[..j]) + t[j..] == t[..j] + [x] + t[j..]
  {
  }

  lemma SortByPrefix<T>(le: (T, T) -> bool, s: seq<T>, i: int)
    requires 0 <= i < |s|
    ensures SortBy(le, s[..i + 1]) == Insert(le, s[i], SortBy(le, s[..i]))
  {
    assert s[..i + 1][..i] == s[..i];
  }

  /** The array during one insertion: the sorted prefix `t` with a hole at
      `j` (holding `w`), then the untouched suffix. */
  function Layout<T>(t: seq<T>, j: int, w: T, rest: seq<T>): (r: seq<T>)
    requires 0 <= j <= |t|
    ensures |r| == |t| + 1 + |rest|
  {
    t[..j] + [w] + t[j..] + rest
  }

  lemma LayoutAt<T>(t: seq<T>, j: int, w: T, rest: seq<T>)
    requires 0 < j <= |t|
    ensures Layout(t, j, w, rest)[j - 1] == t[j - 1]
  {
  }

  /** Moving `t[j - 1]` into the hole moves the hole one place left. */
  lemma LayoutShift<T>(t: seq<T>, j: int, w: T, rest: seq<T>)
    requires 0 < j <= |t|
    ensures Layout(t, j, w, rest)[j := t[j - 1]] == Layout(t, j - 1, t[j - 1], rest)
  {
    assert t[j - 1..] == [t[j - 1]] + t[j..];
    assert t[..j] == t[..j - 1] + [t[j - 1]];
  }

  /** Writing `x` into the hole completes the insertion. */
  lemma LayoutFill<T>(t: seq<T>, j: int, w: T, x: T, rest: seq<T>)
    requires 0 <= j <= |t|
    ensures Layout(t, j, w, rest)[j := x] == (t[..j] + [x] + t[j..]) + rest
  {
  }

  /** `s[i]` inserted into the prefix `s[..i]`, the rest left alone. */
  function InsertAt<T>(le: (T, T) -> bool, s: seq<T>, i: int): seq<T>
    requires 0 <= i < |s|
  {
    Insert(le, s[i], s[..i]) + s[i + 1..]
  }

  /** `a[i]` shifted left past every larger element of the sorted prefix
      `a[..i]`: the inner loop of the insertion sort. */
  method InsertLast<T>(a: array<T>, i: int, le: (T, T) -> bool)
    requires 0 <= i < a.Length
    modifies a
    ensures a[..] == InsertAt(le, old(a[..]), i)
  {
    ghost var s0 := a[..];
    ghost var t, rest := s0[..i], s0[i + 1..];
    var x := a[i];
    var j := i;
    InsertStart(le, s0, i);
    while j > 0 && !le(a[j - 1], x)
      invariant 0 <= j <= i
      invariant a[..] == Layout(t, j, a[j], rest)
      invariant Insert(le, x, t) == Insert(le, x, t[..j]) + t[j..]
    {
      LayoutAt(t, j, a[j], rest);
      InsertShift(le, x, t, j);
      LayoutShift(t, j, a[j], rest);
      a[j] := a[j - 1];
      j := j - 1;
    }
    if j > 0 {
      LayoutAt(t, j, a[j], rest);
    }
    ghost var before := a[..];
    a[j] := x;
    assert a[..] == before[j := x];
    InsertFinish(le, x, t, rest, j, before[j], before, a[..]);
  }

  /** Before the inner loop: the hole is at `i` and nothing has moved. */
  lemma InsertStart<T>(le: (T, T) -> bool, s: seq<T>, i: int)
    requires 0 <= i < |s|
    ensures s == Layout(s[..i], i, s[i], s[i + 1..])
    ensures Insert(le, s[i], s[..i]) == Insert(le, s[i], s[..i][..i]) + s[..i][i..]
  {
    assert s == s[..i] + [s[i]] + s[i + 1..];
    assert s[..i][..i] == s[..i] && s[..i][i..] == [];
  }

  /** After the inner loop: writing `x` into the hole at `j` completes the
      insertion. */
  lemma InsertFinish<T>(le: (T, T) -> bool, x: T, t: seq<T>, rest: seq<T>, j: int, w: T, before: seq<T>, after: seq<T>)
    requires 0 <= j <= |t| && (j == 0 || le(t[j - 1], x))
    requires Insert(le, x, t) == Insert(le, x, t[..j]) + t[j..]
    requires before == Layout(t, j, w, rest) && after == before[j := x]
    ensures after == Insert(le, x, t) + rest
  {
    InsertStop(le, x, t, j);
    LayoutFill(t, j, w, x, rest);
  }

  /** Reading the pieces back out of `p + s[i..]` when `|p| == i`. */
  lemma SplitParts<T>(whole: seq<T>, p: seq<T>, s: seq<T>, i: int)
    requires 0 <= i < |s| && |p| == i && whole == p + s[i..]
    ensures whole[..i] == p && whole[i] == s[i] && whole[i + 1..] == s[i + 1..]
  {
  }

  /** One round of the outer loop: inserting the next input element into
      the sorted prefix sorts one more element. */
  lemma SortStep<T>(le: (T, T) -> bool, input: seq<T>, i: int, before: seq<T>, after: seq<T>)
    requires 0 <= i < |input| && before == SortBy(le, input[..i]) + input[i..]
    requires after == InsertAt(le, before, i)
    ensures after == SortBy(le, input[..i + 1]) + input[i + 1..]
  {
    SplitParts(before, SortBy(le, input[..i]), input, i);
    SortByPrefix(le, input, i);
  }

  /** `a.sort(cmp)`: insertion sort in place; the array ends up holding
      `SortBy` of its old contents. */
  method SortInPlace<T>(a: array<T>, le: (T, T) -> bool)
    modifies a
    ensures a[..] == SortBy(le, old(a[..]))
  {
    ghost var input := a[..];
    var i := 0;
    while i < a.Length
      invariant 0 <= i <= a.Length
      invariant a[..] == SortBy(le, input[..i]) + input[i..]
    {
      ghost var before := a[..];
      InsertLast(a, i, le);
      SortStep(le, input, i, before, a[..]);
      i := i + 1;
    }
    assert input[..a.Length] == input;
  }

  /** `[...xs].sort(cmp)` / `Array.from(...).sort(cmp)`: a fresh array,
      sorted in place. */
  method SortedCopy<T>(s: seq<T>, le: (T, T) -> bool) returns (r: seq<T>)
    ensures r == SortBy(le, s)
  {
    if |s| == 0 {
      return [];
    }
    var a := new T[|s|](i requires 0 <= i < |s| => s[i]);
    assert a[..] == s;
    SortInPlace(a, le);
    r := a[..];
  }
}
