/**
  A model of `Array.prototype.sort(comparefn)` as the list handlers use it.

  The ECMAScript standard (ECMA-262, 2023 edition, section 23.1.3.30) leaves the
  sorting algorithm to the implementation, but requires the sort to be stable
  and, when `comparefn` is a consistent comparator, declares the result to be
  ordered by it. A stable sort by a consistent comparator has exactly one
  possible result (`SortUnique`), so any stable algorithm describes it; this
  module uses a stable insertion sort: `Sort` is the specification as a
  function and `InsertionSort` runs it in place on an array.
*/
module Sorting {

  /** `a` may be placed before `b`: the comparator does not ask to swap them. */
  predicate Precedes<T>(cmp: (T, T) -> int, a: T, b: T) {
    cmp(a, b) <= 0
  }

  /** A consistent comparator: `cmp(a, b) <= 0` exactly when `cmp(b, a) >= 0`
      (so the signs of the two calls are opposite), and `Precedes` is
      transitive. Together these make `Precedes` a total preorder. */
  ghost predicate Consistent<T(!new)>(cmp: (T, T) -> int) {
    && (forall a, b {:trigger Precedes(cmp, a, b)} :: Precedes(cmp, a, b) <==> cmp(b, a) >= 0)
    && (forall a, b, c {:trigger Precedes(cmp, a, b), Precedes(cmp, b, c)} ::
          Precedes(cmp, a, b) && Precedes(cmp, b, c) ==> Precedes(cmp, a, c))
  }

  /** Every element may be placed before every element after it. */
  ghost predicate Sorted<T>(s: seq<T>, cmp: (T, T) -> int) {
    forall i, j :: 0 <= i < j < |s| ==> Precedes(cmp, s[i], s[j])
  }

  /** Inserts `x` into `t` after the last element that does not sort after
      `x`, scanning from the end: the step of a stable insertion sort. */
  function Insert<T>(t: seq<T>, x: T, cmp: (T, T) -> int): (r: seq<T>)
    ensures |r| == |t| + 1
    decreases |t|
  {
    if t == [] then [x]
    else if cmp(t[|t| - 1], x) > 0 then
      Insert(t[..|t| - 1], x, cmp) + [t[|t| - 1]]
    else t + [x]
  }

  /** The stable sort of `s` by `cmp`: each element in turn is inserted into
      the sorted prefix before it. */
  function Sort<T>(s: seq<T>, cmp: (T, T) -> int): (r: seq<T>)
    ensures |r| == |s|
    decreases |s|
  {
    if s == [] then []
    else
      Insert(Sort(s[..|s| - 1], cmp), s[|s| - 1], cmp)
  }

  /** The elements of `s` that compare equal to `x`, in their order in `s`. */
  function SameKey<T>(s: seq<T>, cmp: (T, T) -> int, x: T): (r: seq<T>)
    ensures |r| <= |s|
    ensures forall k :: 0 <= k < |r| ==> cmp(r[k], x) == 0
    decreases |s|
  {
    if s == [] then []
    else SameKey(s[..|s| - 1], cmp, x) + (if cmp(s[|s| - 1], x) == 0 then [s[|s| - 1]] else [])
  }

  /** Inserting adds exactly `x`: the result is a permutation of `t + [x]`. */
  lemma {:induction false} InsertPermutation<T>(t: seq<T>, x: T, cmp: (T, T) -> int)
    ensures multiset(Insert(t, x, cmp)) == multiset(t) + multiset{x}
    decreases |t|
  {
    if t != [] && cmp(t[|t| - 1], x) > 0 {
      InsertPermutation(t[..|t| - 1], x, cmp);
      assert t == t[..|t| - 1] + [t[|t| - 1]];
    }
  }

  /** The sort's result is a permutation of its input. */
  lemma {:induction false} SortPermutation<T>(s: seq<T>, cmp: (T, T) -> int)
    ensures multiset(Sort(s, cmp)) == multiset(s)
    decreases |s|
  {
    if s != [] {
      SortPermutation(s[..|s| - 1], cmp);
      InsertPermutation(Sort(s[..|s| - 1], cmp), s[|s| - 1], cmp);
      assert s == s[..|s| - 1] + [s[|s| - 1]];
    }
  }

  lemma {:induction false} InsertSorted<T(!new)>(t: seq<T>, x: T, cmp: (T, T) -> int)
    requires Consistent(cmp)
    requires Sorted(t, cmp)
    ensures Sorted(Insert(t, x, cmp), cmp)
    decreases |t|
  {
    if t != [] {
      var n := |t|;
      var last, front := t[n - 1], t[..n - 1];
      if cmp(last, x) > 0 {
        InsertSorted(front, x, cmp);
        InsertPermutation(front, x, cmp);
        var r := Insert(front, x, cmp);
        assert !Precedes(cmp, last, x);
        forall k | 0 <= k < |r| ensures Precedes(cmp, r[k], last) {
          assert r[k] in multiset(r);
          if r[k] != x {
            assert r[k] in multiset(front);
            var m :| 0 <= m < |front| && front[m] == r[k];
            assert Precedes(cmp, t[m], t[n - 1]);
          }
        }
        assert Insert(t, x, cmp) == r + [last];
      } else {
        assert Precedes(cmp, last, x);
        forall k | 0 <= k < n ensures Precedes(cmp, t[k], x) {
          if k < n - 1 {
            assert Precedes(cmp, t[k], last);
          }
        }
      }
    }
  }

  /** The sort's result is ordered by the comparator. */
  lemma {:induction false} SortSorted<T(!new)>(s: seq<T>, cmp: (T, T) -> int)
    requires Consistent(cmp)
    ensures Sorted(Sort(s, cmp), cmp)
    decreases |s|
  {
    if s != [] {
      SortSorted(s[..|s| - 1], cmp);
      InsertSorted(Sort(s[..|s| - 1], cmp), s[|s| - 1], cmp);
    }
  }

  /** Whatever sorts after `b` also sorts after anything equal to `b`. */
  lemma AfterEqual<T(!new)>(cmp: (T, T) -> int, a: T, b: T, c: T)
    requires Consistent(cmp)
    requires cmp(a, b) > 0 && cmp(b, c) == 0
    ensures cmp(a, c) > 0
  {
    assert Precedes(cmp, c, b);
    assert !Precedes(cmp, a, b);
    assert !Precedes(cmp, a, c);
  }

  lemma {:induction false} InsertStable<T(!new)>(t: seq<T>, y: T, cmp: (T, T) -> int, x: T)
    requires Consistent(cmp)
    ensures SameKey(Insert(t, y, cmp), cmp, x)
         == SameKey(t, cmp, x) + (if cmp(y, x) == 0 then [y] else [])
    decreases |t|
  {
    if t == [] {
      assert [y][..0] == [];
    } else {
      var n := |t|;
      var last, front := t[n - 1], t[..n - 1];
      if cmp(last, y) > 0 {
        InsertStable(front, y, cmp, x);
        var r := Insert(front, y, cmp);
        assert (r + [last])[..|r|] == r;
        if cmp(y, x) == 0 {
          AfterEqual(cmp, last, y, x);
        }
      } else {
        assert (t + [y])[..n] == t;
      }
    }
  }

  /** Stability: the elements that compare equal to any `x` keep their
      relative order. */
  lemma {:induction false} SortStable<T(!new)>(s: seq<T>, cmp: (T, T) -> int, x: T)
    requires Consistent(cmp)
    ensures SameKey(Sort(s, cmp), cmp, x) == SameKey(s, cmp, x)
    decreases |s|
  {
    if s != [] {
      SortStable(s[..|s| - 1], cmp, x);
      InsertStable(Sort(s[..|s| - 1], cmp), s[|s| - 1], cmp, x);
    }
  }

  /** Under a consistent comparator every element compares equal to itself. */
  lemma Reflexive<T(!new)>(cmp: (T, T) -> int, a: T)
    requires Consistent(cmp)
    ensures cmp(a, a) == 0
  {
    assert Precedes(cmp, a, a) <==> cmp(a, a) >= 0;
  }

  /** `SameKey` keeps only elements of its input. */
  lemma {:induction false} SameKeyIn<T>(s: seq<T>, cmp: (T, T) -> int, x: T, y: T)
    requires y in SameKey(s, cmp, x)
    ensures y in s
    decreases |s|
  {
    var n := |s|;
    if y in SameKey(s[..n - 1], cmp, x) {
      SameKeyIn(s[..n - 1], cmp, x, y);
      assert s == s[..n - 1] + [s[n - 1]];
    }
  }

  /** The last element of an ordered list may follow any of its elements. */
  lemma LastFollows<T(!new)>(q: seq<T>, cmp: (T, T) -> int, a: T)
    requires Consistent(cmp)
    requires Sorted(q, cmp) && a in q
    ensures Precedes(cmp, a, q[|q| - 1])
  {
    var m := |q|;
    var j :| 0 <= j < m && q[j] == a;
    if j < m - 1 {
      assert Precedes(cmp, q[j], q[m - 1]);
    } else {
      Reflexive(cmp, a);
    }
  }

  /** The elements of `s` equal to its last element end with that element. */
  lemma SameKeyLast<T(!new)>(s: seq<T>, cmp: (T, T) -> int, x: T)
    requires Consistent(cmp)
    requires s != [] && cmp(s[|s| - 1], x) == 0
    ensures SameKey(s, cmp, x) == SameKey(s[..|s| - 1], cmp, x) + [s[|s| - 1]]
  {
  }

  /** Two ordered lists that agree on the elements of every key end with the
      same element. */
  lemma LastAgree<T(!new)>(r: seq<T>, q: seq<T>, cmp: (T, T) -> int)
    requires Consistent(cmp)
    requires Sorted(r, cmp) && Sorted(q, cmp) && r != [] && q != []
    requires forall x :: SameKey(r, cmp, x) == SameKey(q, cmp, x)
    ensures r[|r| - 1] == q[|q| - 1]
  {
    var a, b := r[|r| - 1], q[|q| - 1];
    Reflexive(cmp, a);
    Reflexive(cmp, b);
    SameKeyLast(r, cmp, a);
    assert a in SameKey(q, cmp, a);
    SameKeyIn(q, cmp, a, a);
    LastFollows(q, cmp, a);
    SameKeyLast(q, cmp, b);
    assert b in SameKey(r, cmp, b);
    SameKeyIn(r, cmp, b, b);
    LastFollows(r, cmp, b);
    assert Precedes(cmp, b, a) <==> cmp(a, b) >= 0;
    SameKeyLast(r, cmp, b);
    var kb := SameKey(q, cmp, b);
    assert kb[|kb| - 1] == a;
  }

  /** Dropping the same last element from two lists that agree on the
      elements of every key leaves two lists that still agree. */
  lemma StripLast<T>(r: seq<T>, q: seq<T>, cmp: (T, T) -> int, x: T)
    requires r != [] && q != [] && r[|r| - 1] == q[|q| - 1]
    requires SameKey(r, cmp, x) == SameKey(q, cmp, x)
    ensures SameKey(r[..|r| - 1], cmp, x) == SameKey(q[..|q| - 1], cmp, x)
  {
    var kr, kq := SameKey(r[..|r| - 1], cmp, x), SameKey(q[..|q| - 1], cmp, x);
    var k := SameKey(r, cmp, x);
    assert kr == k[..|kr|];
    assert kq == k[..|kq|];
  }

  /** Two ordered lists that agree, key by key, on the elements of each key
      and their order are the same list. */
  lemma {:induction false} SortedUnique<T(!new)>(r: seq<T>, q: seq<T>, cmp: (T, T) -> int)
    requires Consistent(cmp)
    requires Sorted(r, cmp) && Sorted(q, cmp)
    requires forall x :: SameKey(r, cmp, x) == SameKey(q, cmp, x)
    ensures r == q
    decreases |r| + |q|
  {
    if q != [] {
      Reflexive(cmp, q[|q| - 1]);
      assert SameKey(q, cmp, q[|q| - 1]) != [];
      assert r != [];
    }
    if r != [] {
      Reflexive(cmp, r[|r| - 1]);
      assert SameKey(r, cmp, r[|r| - 1]) != [];
      assert q != [];
      LastAgree(r, q, cmp);
      var r', q' := r[..|r| - 1], q[..|q| - 1];
      forall x ensures SameKey(r', cmp, x) == SameKey(q', cmp, x) {
        StripLast(r, q, cmp, x);
      }
      assert Sorted(r', cmp) && Sorted(q', cmp);
      SortedUnique(r', q', cmp);
      assert r == r' + [r[|r| - 1]] && q == q' + [q[|q| - 1]];
    }
  }

  /** A stable sort by a consistent comparator has exactly one result: any
      ordered list that holds, key by key, the input's elements in their input
      order is `Sort` of the input. */
  lemma SortUnique<T(!new)>(s: seq<T>, r: seq<T>, cmp: (T, T) -> int)
    requires Consistent(cmp)
    requires Sorted(r, cmp)
    requires forall x :: SameKey(r, cmp, x) == SameKey(s, cmp, x)
    ensures r == Sort(s, cmp)
  {
    SortSorted(s, cmp);
    forall x ensures SameKey(r, cmp, x) == SameKey(Sort(s, cmp), cmp, x) {
      SortStable(s, cmp, x);
    }
    SortedUnique(r, Sort(s, cmp), cmp);
  }

  /** Shifts the elements of `a[..i]` that sort after `x` one place to the
      right, scanning from `i - 1` down, and returns the hole they leave. */
  method ShiftAfter<T>(a: array<T>, i: nat, x: T, cmp: (T, T) -> int) returns (j: nat)
    requires i < a.Length
    modifies a
    ensures j <= i
    ensures forall k :: 0 <= k < j ==> a[k] == old(a[k])
    ensures forall k :: j < k <= i ==> a[k] == old(a[k - 1])
    ensures forall k :: i < k < a.Length ==> a[k] == old(a[k])
    ensures forall k :: j < k <= i ==> cmp(a[k], x) > 0
    ensures j > 0 ==> cmp(a[j - 1], x) <= 0
  {
    j := i;
    while j > 0 && cmp(a[j - 1], x) > 0
      invariant j <= i
      invariant forall k :: 0 <= k < j ==> a[k] == old(a[k])
      invariant forall k :: j < k <= i ==> a[k] == old(a[k - 1])
      invariant forall k :: i < k < a.Length ==> a[k] == old(a[k])
      invariant forall k :: j < k <= i ==> cmp(a[k], x) > 0
    {
      a[j] := a[j - 1];
      j := j - 1;
    }
  }

  /** Moves `a[i]` leftwards past the elements of `a[..i]` that sort after it:
      one step of the insertion sort. */
  method InsertLast<T>(a: array<T>, i: nat, cmp: (T, T) -> int)
    requires i < a.Length
    modifies a
    ensures a[..i + 1] == Insert(old(a[..i]), old(a[i]), cmp)
    ensures a[i + 1..] == old(a[i + 1..])
  {
    ghost var t := a[..i];
    var x := a[i];
    var j := ShiftAfter(a, i, x, cmp);
    forall k | j <= k < i ensures cmp(t[k], x) > 0 {
      assert a[k + 1] == t[k];
    }
    InsertAt(t, x, cmp, j);
    a[j] := x;
    Placed(t, x, a[..i + 1], j);
    assert a[i + 1..] == old(a[i + 1..]);
  }

  lemma Placed<T>(t: seq<T>, x: T, b: seq<T>, j: int)
    requires 0 <= j <= |t| && |b| == |t| + 1
    requires forall k :: 0 <= k < j ==> b[k] == t[k]
    requires b[j] == x
    requires forall k :: j < k < |b| ==> b[k] == t[k - 1]
    ensures b == t[..j] + [x] + t[j..]
  {
  }

  /** `Insert` places `x` at `j` when everything from `j` on sorts after `x`
      and the element before `j`, if any, does not. */
  lemma {:induction false} InsertAt<T>(t: seq<T>, x: T, cmp: (T, T) -> int, j: int)
    requires 0 <= j <= |t|
    requires j > 0 ==> cmp(t[j - 1], x) <= 0
    requires forall k :: j <= k < |t| ==> cmp(t[k], x) > 0
    ensures Insert(t, x, cmp) == t[..j] + [x] + t[j..]
    decreases |t|
  {
    if j == |t| {
      assert t[..j] == t && t[j..] == [];
    } else {
      var front := t[..|t| - 1];
      InsertAt(front, x, cmp, j);
      assert front[..j] == t[..j];
      assert front[j..] + [t[|t| - 1]] == t[j..];
    }
  }

  /** Sorts `a` in place, stably: the result is `Sort` of the old contents. */
  method InsertionSort<T>(a: array<T>, cmp: (T, T) -> int)
    modifies a
    ensures a[..] == Sort(old(a[..]), cmp)
  {
    ghost var s := a[..];
    var i := 0;
    while i < a.Length
      invariant 0 <= i <= a.Length
      invariant a[..i] == Sort(s[..i], cmp)
      invariant a[i..] == s[i..]
    {
      assert s[..i + 1][..i] == s[..i];
      InsertLast(a, i, cmp);
      i := i + 1;
    }
    assert a[..] == a[..a.Length];
    assert s[..a.Length] == s;
  }
}
