/** Insertion sort by a real-valued key: the model's stand-in for pandas
    `sort_values` and for the ordering inside `Series.median()`. */
module Sorting {

  predicate SortedBy<T>(s: seq<T>, key: T -> real)
  {
    forall i, j :: 0 <= i < j < |s| ==> key(s[i]) <= key(s[j])
  }

  function InsertBy<T>(x: T, s: seq<T>, key: T -> real): (r: seq<T>)
    requires SortedBy(s, key)
    ensures SortedBy(r, key)
    ensures multiset(r) == multiset(s) + multiset{x}
    ensures |r| == |s| + 1
    ensures forall i :: 0 <= i < |r| ==> r[i] == x || r[i] in s
  {
    if |s| == 0 then [x]
    else if key(x) < key(s[0]) then
      ConsSorted(x, s, key);
      [x] + s
    else
      var tail := s[1..];
      assert SortedBy(tail, key) && forall i :: 0 <= i < |tail| ==> key(s[0]) <= key(tail[i]);
      var rest := InsertBy(x, tail, key);
      assert forall i :: 0 <= i < |rest| ==> key(s[0]) <= key(rest[i]);
      ConsSorted(s[0], rest, key);
      assert s == [s[0]] + tail;
      [s[0]] + rest
  }

  lemma {:induction false} ConsSorted<T>(x: T, s: seq<T>, key: T -> real)
    requires SortedBy(s, key) && forall i :: 0 <= i < |s| ==> key(x) <= key(s[i])
    ensures SortedBy([x] + s, key)
  {
    var r := [x] + s;
    forall i, j | 0 <= i < j < |r| ensures key(r[i]) <= key(r[j]) {
      assert r[j] == s[j - 1];
      if i > 0 {
        assert r[i] == s[i - 1];
      }
    }
  }

  /** Sorts `s` by `key`, ascending; elements with equal keys keep their order. */
  function SortBy<T>(s: seq<T>, key: T -> real): (r: seq<T>)
    ensures SortedBy(r, key)
    ensures multiset(r) == multiset(s)
    ensures |r| == |s|
  {
    if |s| == 0 then []
    else
      assert s == s[..|s| - 1] + [s[|s| - 1]];
      InsertBy(s[|s| - 1], SortBy(s[..|s| - 1], key), key)
  }
}
