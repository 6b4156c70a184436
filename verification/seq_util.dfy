/** Sequence helpers used across the model: sums, counting, order-preserving
    de-duplication (pandas `Series.unique()`) and sorted de-duplication
    (the keys of a pandas `groupby`, or `unique()` followed by `sort()`). */
module SeqUtil {

  function SumReal(s: seq<real>): real
  {
    if |s| == 0 then 0.0 else SumReal(s[..|s| - 1]) + s[|s| - 1]
  }

  function SumNat(s: seq<nat>): nat
  {
    if |s| == 0 then 0 else SumNat(s[..|s| - 1]) + s[|s| - 1]
  }

  lemma {:induction false} SumRealAppend(a: seq<real>, b: seq<real>)
    ensures SumReal(a + b) == SumReal(a) + SumReal(b)
    decreases |b|
  {
    if |b| == 0 {
      assert a + b == a;
    } else {
      assert (a + b)[..|a + b| - 1] == a + b[..|b| - 1];
      SumRealAppend(a, b[..|b| - 1]);
    }
  }

  lemma {:induction false} SumNatAppend(a: seq<nat>, b: seq<nat>)
    ensures SumNat(a + b) == SumNat(a) + SumNat(b)
    decreases |b|
  {
    if |b| == 0 {
      assert a + b == a;
    } else {
      assert (a + b)[..|a + b| - 1] == a + b[..|b| - 1];
      SumNatAppend(a, b[..|b| - 1]);
    }
  }

  /** Number of elements of `s` satisfying `p`. */
  function CountIf<T>(s: seq<T>, p: T -> bool): (n: nat)
    ensures n <= |s|
  {
    if |s| == 0 then 0 else CountIf(s[..|s| - 1], p) + (if p(s[|s| - 1]) then 1 else 0)
  }

  /** The count of `s` is that of all but its last element, plus one when
      the last element satisfies `p`. */
  lemma {:induction false} CountIfLast<T>(s: seq<T>, p: T -> bool)
    requires |s| > 0
    ensures CountIf(s, p) == CountIf(s[..|s| - 1], p) + (if p(s[|s| - 1]) then 1 else 0)
  {
  }

  lemma {:induction false} CountIfAppend<T>(a: seq<T>, b: seq<T>, p: T -> bool)
    ensures CountIf(a + b, p) == CountIf(a, p) + CountIf(b, p)
    decreases |b|
  {
    if |b| == 0 {
      assert a + b == a;
    } else {
      assert (a + b)[..|a + b| - 1] == a + b[..|b| - 1];
      CountIfAppend(a, b[..|b| - 1], p);
    }
  }

  lemma {:induction false} CountIfNone<T>(s: seq<T>, p: T -> bool)
    requires forall i :: 0 <= i < |s| ==> !p(s[i])
    ensures CountIf(s, p) == 0
    decreases |s|
  {
    if |s| > 0 {
      CountIfNone(s[..|s| - 1], p);
    }
  }

  /** Counting is insensitive to the order of the elements. */
  lemma {:induction false} CountIfPermutation<T>(s: seq<T>, t: seq<T>, p: T -> bool)
    requires multiset(s) == multiset(t)
    ensures CountIf(s, p) == CountIf(t, p)
    decreases |s|
  {
    if |s| == 0 {
      assert |t| == |multiset(t)| == 0;
    } else {
      var init, x := s[..|s| - 1], s[|s| - 1];
      assert s == init + [x];
      assert x in multiset(t);
      var k :| 0 <= k < |t| && t[k] == x;
      var t' := RemoveAt(t, k);
      assert multiset(init) == multiset(s) - multiset{x};
      assert multiset(init) == multiset(t');
      CountIfPermutation(init, t', p);
      assert CountIf(s, p) == CountIf(init, p) + (if p(x) then 1 else 0);
      assert CountIf(t, p) == CountIf(t', p) + (if p(x) then 1 else 0);
    }
  }

  /** `t` without its k-th element: one occurrence fewer, counted once less. */
  lemma {:induction false} RemoveAt<T>(t: seq<T>, k: nat) returns (t': seq<T>)
    requires k < |t|
    ensures t' == t[..k] + t[k + 1..]
    ensures multiset(t') == multiset(t) - multiset{t[k]}
    ensures forall p: T -> bool :: CountIf(t, p) == CountIf(t', p) + (if p(t[k]) then 1 else 0)
  {
    t' := t[..k] + t[k + 1..];
    assert t == t[..k] + [t[k]] + t[k + 1..];
    forall p: T -> bool ensures CountIf(t, p) == CountIf(t', p) + (if p(t[k]) then 1 else 0) {
      CountIfAppend(t[..k] + [t[k]], t[k + 1..], p);
      CountIfAppend(t[..k], [t[k]], p);
      CountIfAppend(t[..k], t[k + 1..], p);
      assert [t[k]][..0] == [];
    }
  }

  /** The elements of `s` satisfying `p`, in their original order. */
  function Filter<T>(s: seq<T>, p: T -> bool): (r: seq<T>)
    ensures |r| == CountIf(s, p)
    ensures forall x :: x in r ==> x in s && p(x)
    ensures forall x :: x in s && p(x) ==> x in r
  {
    if |s| == 0 then [] else Filter(s[..|s| - 1], p) + (if p(s[|s| - 1]) then [s[|s| - 1]] else [])
  }

  lemma {:induction false} FilterAppend<T>(a: seq<T>, b: seq<T>, p: T -> bool)
    ensures Filter(a + b, p) == Filter(a, p) + Filter(b, p)
    decreases |b|
  {
    if |b| == 0 {
      assert a + b == a;
    } else {
      var b', x := b[..|b| - 1], b[|b| - 1];
      var tail := if p(x) then [x] else [];
      assert (a + b)[..|a + b| - 1] == a + b';
      assert Filter(a + b, p) == Filter(a + b', p) + tail;
      assert Filter(b, p) == Filter(b', p) + tail;
      FilterAppend(a, b', p);
      assert Filter(a, p) + Filter(b', p) + tail == Filter(a, p) + (Filter(b', p) + tail);
    }
  }

  /** The block of `a + b` past `a` is `b`. */
  lemma {:induction false} SliceAppendRight<T>(a: seq<T>, b: seq<T>)
    ensures (a + b)[|a| .. |a| + |b|] == b
  {
  }

  /** A block of `a + b` that lies within `a` is that block of `a`. */
  lemma {:induction false} SliceAppendLeft<T>(a: seq<T>, b: seq<T>, lo: nat, hi: nat)
    requires lo <= hi <= |a|
    ensures (a + b)[lo .. hi] == a[lo .. hi]
  {
  }

  predicate NoDuplicates<T(==)>(s: seq<T>)
  {
    forall i, j :: 0 <= i < j < |s| ==> s[i] != s[j]
  }

  /** pandas `unique()`: each value once, in order of first appearance. */
  function Distinct<T(==)>(s: seq<T>): (r: seq<T>)
    ensures NoDuplicates(r)
    ensures forall i :: 0 <= i < |r| ==> r[i] in s
    ensures forall i :: 0 <= i < |s| ==> s[i] in r
  {
    if |s| == 0 then []
    else
      var r := Distinct(s[..|s| - 1]);
      if s[|s| - 1] in r then r else r + [s[|s| - 1]]
  }

  predicate StrictlyIncreasing(s: seq<int>)
  {
    forall i, j :: 0 <= i < j < |s| ==> s[i] < s[j]
  }

  /** Inserts `x` into a strictly increasing sequence unless already present. */
  function InsertUnique(x: int, s: seq<int>): (r: seq<int>)
    requires StrictlyIncreasing(s)
    ensures StrictlyIncreasing(r)
    ensures forall y :: y in r <==> y == x || y in s
  {
    if |s| == 0 then [x]
    else if x < s[0] then
      ConsIncreasing(x, s);
      [x] + s
    else if x == s[0] then s
    else
      var tail := s[1..];
      assert StrictlyIncreasing(tail) && forall y :: y in tail ==> s[0] < y;
      var rest := InsertUnique(x, tail);
      ConsIncreasing(s[0], rest);
      assert s == [s[0]] + tail;
      [s[0]] + rest
  }

  lemma {:induction false} ConsIncreasing(a: int, t: seq<int>)
    requires StrictlyIncreasing(t) && forall y :: y in t ==> a < y
    ensures StrictlyIncreasing([a] + t)
  {
    var r := [a] + t;
    forall i, j | 0 <= i < j < |r| ensures r[i] < r[j] {
      assert r[j] == t[j - 1] && t[j - 1] in t;
      if i > 0 {
        assert r[i] == t[i - 1];
      }
    }
  }

  /** The distinct values of `s` in ascending order (the group keys of a
      pandas `groupby`, or `unique()` followed by `sort()`). */
  function SortedDistinct(s: seq<int>): (r: seq<int>)
    ensures StrictlyIncreasing(r)
    ensures forall x :: x in r <==> x in s
  {
    if |s| == 0 then [] else InsertUnique(s[|s| - 1], SortedDistinct(s[..|s| - 1]))
  }

  lemma {:induction false} StrictlyIncreasingNoDuplicates(s: seq<int>)
    requires StrictlyIncreasing(s)
    ensures NoDuplicates(s)
  {
  }

  /** A strictly increasing sequence is determined by its elements. */
  lemma {:induction false} IncreasingUnique(a: seq<int>, b: seq<int>)
    requires StrictlyIncreasing(a) && StrictlyIncreasing(b)
    requires forall x :: x in a <==> x in b
    ensures a == b
    decreases |a|
  {
    assert |a| > 0 ==> a[0] in a;
    assert |b| > 0 ==> b[0] in b;
    if |a| > 0 {
      var i :| 0 <= i < |b| && b[i] == a[0];
      var j :| 0 <= j < |a| && a[j] == b[0];
      assert a[0] <= a[j] && b[0] <= b[i];
      forall x ensures x in a[1..] <==> x in b[1..] {
        if x in a[1..] {
          assert x in b && x != b[0];
        }
        if x in b[1..] {
          assert x in a && x != a[0];
        }
      }
      IncreasingUnique(a[1..], b[1..]);
      assert a == [a[0]] + a[1..] && b == [b[0]] + b[1..];
    }
  }

  /** Position of `x` in a sequence without duplicates. */
  function IndexOf<T(==)>(s: seq<T>, x: T): (i: nat)
    requires x in s
    ensures i < |s| && s[i] == x
    ensures forall j :: 0 <= j < i ==> s[j] != x
  {
    if s[0] == x then 0 else 1 + IndexOf(s[1..], x)
  }

  /** `f` applied to every pair of neighbours of `s`, in order. */
  function Pairwise<A, B>(s: seq<A>, f: (A, A) -> B): (r: seq<B>)
    requires |s| > 0
    ensures |r| == |s| - 1
    ensures forall k :: 0 <= k < |r| ==> r[k] == f(s[k], s[k + 1])
    decreases |s|
  {
    if |s| == 1 then []
    else
      var n := |s| - 1;
      var init := Pairwise(s[..n], f);
      assert forall k :: 0 <= k < n ==> s[..n][k] == s[k];
      init + [f(s[n - 1], s[n])]
  }

  function Concat<T>(ss: seq<seq<T>>): (r: seq<T>)
  {
    if |ss| == 0 then [] else Concat(ss[..|ss| - 1]) + ss[|ss| - 1]
  }

  /** The length of every block. */
  function Lengths<T>(ss: seq<seq<T>>): (ls: seq<nat>)
    ensures |ls| == |ss|
    ensures forall i :: 0 <= i < |ss| ==> ls[i] == |ss[i]|
  {
    seq(|ss|, (i: int) requires 0 <= i < |ss| => |ss[i]|)
  }

  /** A concatenation is as long as its blocks together. */
  lemma {:induction false} ConcatLength<T>(ss: seq<seq<T>>)
    ensures |Concat(ss)| == SumNat(Lengths(ss))
    decreases |ss|
  {
    if |ss| > 0 {
      var m := |ss| - 1;
      ConcatLength(ss[..m]);
      assert Lengths(ss)[..m] == Lengths(ss[..m]);
    }
  }

  /** A sum of positive numbers is zero exactly when there are none. */
  lemma {:induction false} SumNatPositive(s: seq<nat>)
    requires forall i :: 0 <= i < |s| ==> s[i] > 0
    ensures SumNat(s) == 0 <==> |s| == 0
  {
  }

  /** Block `i` of a concatenation sits right after the earlier blocks. */
  lemma {:induction false} ConcatBlock<T>(ss: seq<seq<T>>, i: nat)
    requires i < |ss|
    ensures |Concat(ss[..i])| + |ss[i]| <= |Concat(ss)|
    ensures Concat(ss)[|Concat(ss[..i])| .. |Concat(ss[..i])| + |ss[i]|] == ss[i]
    decreases |ss|
  {
    var m := |ss| - 1;
    var init := ss[..m];
    assert Concat(ss) == Concat(init) + ss[m];
    if i == m {
      assert init == ss[..i];
      SliceAppendRight(Concat(init), ss[m]);
    } else {
      ConcatBlock(init, i);
      assert init[..i] == ss[..i];
      assert init[i] == ss[i];
      SliceAppendLeft(Concat(init), ss[m], |Concat(ss[..i])|, |Concat(ss[..i])| + |ss[i]|);
    }
  }

  /** `b` occurs in `r` as the block starting at `lo`. */
  predicate BlockAt<T(==)>(r: seq<T>, lo: nat, b: seq<T>)
  {
    lo + |b| <= |r| && r[lo .. lo + |b|] == b
  }

  /** `ConcatBlock` with the offset and the block named by the caller. */
  lemma {:induction false} ConcatBlockAt<T>(ss: seq<seq<T>>, i: nat, lo: nat, b: seq<T>)
    requires i < |ss| && lo == |Concat(ss[..i])| && b == ss[i]
    ensures BlockAt(Concat(ss), lo, b)
  {
    ConcatBlock(ss, i);
  }

  lemma {:induction false} ConcatAppend<T>(a: seq<seq<T>>, b: seq<seq<T>>)
    ensures Concat(a + b) == Concat(a) + Concat(b)
    decreases |b|
  {
    if |b| == 0 {
      assert a + b == a;
    } else {
      var b', x := b[..|b| - 1], b[|b| - 1];
      assert (a + b)[..|a + b| - 1] == a + b';
      assert Concat(a + b) == Concat(a + b') + x;
      assert Concat(b) == Concat(b') + x;
      ConcatAppend(a, b');
      assert Concat(a) + Concat(b') + x == Concat(a) + (Concat(b') + x);
    }
  }
}
