/** The two pandas reductions the persistence tests rely on: `Series.median()`
    (the middle value, or the mean of the two middle values for an even count)
    and `Series.mean()`. */
module Stats {
  import opened SeqUtil
  import opened Sorting

  function Id(x: real): real { x }

  function Above(m: real): real -> bool { (x: real) => x > m }

  function Below(m: real): real -> bool { (x: real) => x < m }

  function Median(s: seq<real>): real
    requires |s| > 0
  {
    var v := SortBy(s, Id);
    var h := |v| / 2;
    if |v| % 2 == 1 then v[h] else (v[h - 1] + v[h]) / 2.0
  }

  function Mean(s: seq<real>): real
    requires |s| > 0
  {
    SumReal(s) / (|s| as real)
  }

  lemma {:induction false} CountAboveSorted(v: seq<real>, m: real, k: nat)
    requires SortedBy(v, Id)
    requires 0 < k <= |v| && v[k - 1] <= m
    ensures CountIf(v, Above(m)) <= |v| - k
  {
    assert v == v[..k] + v[k..];
    assert forall i :: 0 <= i < k ==> Id(v[i]) <= Id(v[k - 1]);
    CountIfNone(v[..k], Above(m));
    CountIfAppend(v[..k], v[k..], Above(m));
  }

  lemma {:induction false} CountBelowSorted(v: seq<real>, m: real, k: nat)
    requires SortedBy(v, Id)
    requires k < |v| && m <= v[k]
    ensures CountIf(v, Below(m)) <= k
  {
    assert v == v[..k] + v[k..];
    assert forall i :: k <= i < |v| ==> Id(v[k]) <= Id(v[i]);
    CountIfNone(v[k..], Below(m));
    CountIfAppend(v[..k], v[k..], Below(m));
  }

  /** At most half of the values lie strictly above the median, and at most
      half strictly below it: the median splits a group into winners and losers
      of (nearly) equal size. */
  lemma {:induction false} MedianSplitsInHalf(s: seq<real>)
    requires |s| > 0
    ensures CountIf(s, Above(Median(s))) <= |s| / 2
    ensures CountIf(s, Below(Median(s))) <= |s| / 2
  {
    var v := SortBy(s, Id);
    var m := Median(s);
    CountIfPermutation(s, v, Above(m));
    CountIfPermutation(s, v, Below(m));
    MedianSplitsSorted(v, m);
  }

  lemma {:induction false} MedianSplitsSorted(v: seq<real>, m: real)
    requires |v| > 0 && SortedBy(v, Id)
    requires m == if |v| % 2 == 1 then v[|v| / 2] else (v[|v| / 2 - 1] + v[|v| / 2]) / 2.0
    ensures CountIf(v, Above(m)) <= |v| / 2
    ensures CountIf(v, Below(m)) <= |v| / 2
  {
    var h := |v| / 2;
    if |v| % 2 == 1 {
      CountAboveSorted(v, m, h + 1);
      CountBelowSorted(v, m, h);
    } else {
      assert Id(v[h - 1]) <= Id(v[h]);
      CountAboveSorted(v, m, h);
      CountBelowSorted(v, m, h);
    }
  }
}
