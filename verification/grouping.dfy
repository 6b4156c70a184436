/** pandas `groupby` on an integer key column: the groups come in ascending
    key order, each holds the rows with that key, and together they hold
    every row exactly once. */
module Grouping {
  import opened SeqUtil
  import opened Sorting

  /** One fund's rows, in the order the pipeline processes them. */
  datatype FundHistory<R> = FundHistory(fund: int, rows: seq<R>)

  function Keys<R>(rows: seq<R>, keyOf: R -> int): (ks: seq<int>)
    ensures |ks| == |rows|
    ensures forall j :: 0 <= j < |rows| ==> ks[j] == keyOf(rows[j])
  {
    if |rows| == 0 then [] else Keys(rows[..|rows| - 1], keyOf) + [keyOf(rows[|rows| - 1])]
  }

  /** A key occurs in the column exactly when some row carries it. */
  lemma {:induction false} KeysMember<R>(rows: seq<R>, keyOf: R -> int, k: int)
    ensures k in Keys(rows, keyOf) <==> exists x :: x in rows && keyOf(x) == k
  {
    var ks := Keys(rows, keyOf);
    if k in ks {
      var j :| 0 <= j < |ks| && ks[j] == k;
      assert rows[j] in rows;
    }
    if x :| x in rows && keyOf(x) == k {
      var j :| 0 <= j < |rows| && rows[j] == x;
      assert ks[j] == k;
    }
  }

  function HasKey<R>(keyOf: R -> int, k: int): R -> bool
  {
    (x: R) => keyOf(x) == k
  }

  /** `df[df[column] == k]`, in row order. */
  function Part<R>(rows: seq<R>, keyOf: R -> int, k: int): (r: seq<R>)
    ensures forall x :: x in r ==> x in rows && keyOf(x) == k
    ensures forall x :: x in rows && keyOf(x) == k ==> x in r
  {
    Filter(rows, HasKey(keyOf, k))
  }

  /** The parts for the keys `ks` in turn, concatenated. */
  function Parts<R>(rows: seq<R>, ks: seq<int>, keyOf: R -> int): seq<R>
  {
    if |ks| == 0 then [] else Parts(rows, ks[..|ks| - 1], keyOf) + Part(rows, keyOf, ks[|ks| - 1])
  }

  lemma {:induction false} PartsOfNothing<R>(ks: seq<int>, keyOf: R -> int)
    ensures Parts([], ks, keyOf) == []
    decreases |ks|
  {
    if |ks| > 0 {
      PartsOfNothing(ks[..|ks| - 1], keyOf);
    }
  }

  /** Appending one row adds it to exactly the part of its own key, if that
      key is listed. */
  lemma {:induction false} PartsSnoc<R>(rows: seq<R>, x: R, ks: seq<int>, keyOf: R -> int)
    requires NoDuplicates(ks)
    ensures multiset(Parts(rows + [x], ks, keyOf))
         == multiset(Parts(rows, ks, keyOf)) + (if keyOf(x) in ks then multiset{x} else multiset{})
    decreases |ks|
  {
    if |ks| > 0 {
      var init := ks[..|ks| - 1];
      var k := ks[|ks| - 1];
      LastKey(ks);
      PartsSnoc(rows, x, init, keyOf);
      PartSnoc(rows, x, keyOf, k);
      assert Parts(rows + [x], ks, keyOf) == Parts(rows + [x], init, keyOf) + Part(rows + [x], keyOf, k);
      assert Parts(rows, ks, keyOf) == Parts(rows, init, keyOf) + Part(rows, keyOf, k);
    }
  }

  /** The last of distinct keys is not among the others. */
  lemma LastKey(ks: seq<int>)
    requires NoDuplicates(ks) && |ks| > 0
    ensures NoDuplicates(ks[..|ks| - 1])
    ensures ks[|ks| - 1] !in ks[..|ks| - 1]
    ensures forall y :: y in ks <==> y in ks[..|ks| - 1] || y == ks[|ks| - 1]
  {
    var init, k := ks[..|ks| - 1], ks[|ks| - 1];
    assert ks == init + [k];
    forall j | 0 <= j < |init| ensures init[j] != k {
      assert init[j] == ks[j];
    }
  }

  lemma {:induction false} PartSnoc<R>(rows: seq<R>, x: R, keyOf: R -> int, k: int)
    ensures Part(rows + [x], keyOf, k) == Part(rows, keyOf, k) + (if keyOf(x) == k then [x] else [])
  {
    assert (rows + [x])[..|rows + [x]| - 1] == rows;
  }

  /** When every row's key is listed exactly once, the parts rearrange the rows. */
  lemma {:induction false} PartsPermute<R>(rows: seq<R>, ks: seq<int>, keyOf: R -> int)
    requires NoDuplicates(ks)
    requires forall j :: 0 <= j < |rows| ==> keyOf(rows[j]) in ks
    ensures multiset(Parts(rows, ks, keyOf)) == multiset(rows)
    decreases |rows|
  {
    if |rows| == 0 {
      PartsOfNothing(ks, keyOf);
    } else {
      var init := rows[..|rows| - 1];
      var x := rows[|rows| - 1];
      assert rows == init + [x];
      PartsPermute(init, ks, keyOf);
      PartsSnoc(init, x, ks, keyOf);
    }
  }

  /** `h` is the group of key k: the rows with key k, sorted by `order`. */
  predicate IsGroup<R(==)>(rows: seq<R>, keyOf: R -> int, order: R -> real, h: FundHistory<R>, k: int)
  {
    && h.fund == k
    && SortedBy(h.rows, order)
    && multiset(h.rows) == multiset(Part(rows, keyOf, k))
  }

  /** The members of a group are the rows with its key. */
  lemma {:induction false} InGroup<R>(rows: seq<R>, keyOf: R -> int, order: R -> real, h: FundHistory<R>, k: int, x: R)
    requires IsGroup(rows, keyOf, order, h, k)
    ensures x in h.rows <==> x in rows && keyOf(x) == k
  {
    assert x in h.rows <==> x in multiset(h.rows);
    assert x in Part(rows, keyOf, k) <==> x in multiset(Part(rows, keyOf, k));
  }

  /** The group of every key in `ks`, in turn. */
  function GroupsOf<R(==)>(rows: seq<R>, ks: seq<int>, keyOf: R -> int, order: R -> real): (g: seq<FundHistory<R>>)
    ensures |g| == |ks|
    ensures forall i :: 0 <= i < |ks| ==> IsGroup(rows, keyOf, order, g[i], ks[i])
  {
    if |ks| == 0 then []
    else
      var k := ks[|ks| - 1];
      var init := GroupsOf(rows, ks[..|ks| - 1], keyOf, order);
      var h := FundHistory(k, SortBy(Part(rows, keyOf, k), order));
      assert IsGroup(rows, keyOf, order, h, k);
      assert forall i :: 0 <= i < |ks| - 1 ==> (init + [h])[i] == init[i] && ks[..|ks| - 1][i] == ks[i];
      init + [h]
  }

  function AllRows<R>(g: seq<FundHistory<R>>): seq<R>
  {
    if |g| == 0 then [] else AllRows(g[..|g| - 1]) + g[|g| - 1].rows
  }

  lemma {:induction false} AllRowsOfGroups<R>(rows: seq<R>, ks: seq<int>, keyOf: R -> int, order: R -> real)
    ensures multiset(AllRows(GroupsOf(rows, ks, keyOf, order))) == multiset(Parts(rows, ks, keyOf))
    decreases |ks|
  {
    if |ks| > 0 {
      var g := GroupsOf(rows, ks, keyOf, order);
      assert g[..|ks| - 1] == GroupsOf(rows, ks[..|ks| - 1], keyOf, order);
      AllRowsOfGroups(rows, ks[..|ks| - 1], keyOf, order);
    }
  }

  /** `df.groupby(key)` with every group sorted by `order` (the
      `sort_values` each loop body applies): one non-empty group per distinct
      key, in ascending key order, holding exactly the rows with that key. */
  function GroupBy<R(==)>(rows: seq<R>, keyOf: R -> int, order: R -> real): (g: seq<FundHistory<R>>)
    ensures forall i, j :: 0 <= i < j < |g| ==> g[i].fund < g[j].fund
    ensures forall i :: 0 <= i < |g| ==> |g[i].rows| > 0 && IsGroup(rows, keyOf, order, g[i], g[i].fund)
    ensures forall j :: 0 <= j < |rows| ==> exists i :: 0 <= i < |g| && g[i].fund == keyOf(rows[j])
  {
    var ks := SortedDistinct(Keys(rows, keyOf));
    var g := GroupsOf(rows, ks, keyOf, order);
    GroupsNonEmpty(rows, keyOf, order, ks, g);
    EveryKeyGrouped(rows, keyOf, order, ks, g);
    g
  }

  lemma {:induction false} GroupsNonEmpty<R>(rows: seq<R>, keyOf: R -> int, order: R -> real, ks: seq<int>, g: seq<FundHistory<R>>)
    requires forall k :: k in ks ==> k in Keys(rows, keyOf)
    requires |g| == |ks| && forall i :: 0 <= i < |ks| ==> IsGroup(rows, keyOf, order, g[i], ks[i])
    ensures forall i :: 0 <= i < |g| ==> |g[i].rows| > 0
  {
    forall i | 0 <= i < |g| ensures |g[i].rows| > 0 {
      assert ks[i] in Keys(rows, keyOf);
      var j :| 0 <= j < |rows| && Keys(rows, keyOf)[j] == ks[i];
      assert rows[j] in Part(rows, keyOf, ks[i]);
      assert rows[j] in multiset(g[i].rows);
    }
  }

  lemma EveryKeyGrouped<R>(rows: seq<R>, keyOf: R -> int, order: R -> real, ks: seq<int>, g: seq<FundHistory<R>>)
    requires forall k :: k in Keys(rows, keyOf) ==> k in ks
    requires |g| == |ks| && forall i :: 0 <= i < |ks| ==> g[i].fund == ks[i]
    ensures forall j :: 0 <= j < |rows| ==> exists i :: 0 <= i < |g| && g[i].fund == keyOf(rows[j])
  {
    forall j | 0 <= j < |rows| ensures exists i :: 0 <= i < |g| && g[i].fund == keyOf(rows[j]) {
      assert Keys(rows, keyOf)[j] in Keys(rows, keyOf);
      assert keyOf(rows[j]) in ks;
      var i :| 0 <= i < |ks| && ks[i] == keyOf(rows[j]);
      assert g[i].fund == keyOf(rows[j]);
    }
  }

  /** The groups hold every row exactly once. */
  /** Rows form at least one group. */
  lemma {:induction false} GroupByNonEmpty<R>(rows: seq<R>, keyOf: R -> int, order: R -> real)
    requires |rows| > 0
    ensures |GroupBy(rows, keyOf, order)| > 0
  {
    var g := GroupBy(rows, keyOf, order);
    assert exists i :: 0 <= i < |g| && g[i].fund == keyOf(rows[0]);
  }

  lemma {:induction false} GroupByPartitions<R>(rows: seq<R>, keyOf: R -> int, order: R -> real)
    ensures multiset(AllRows(GroupBy(rows, keyOf, order))) == multiset(rows)
  {
    var ks := SortedDistinct(Keys(rows, keyOf));
    StrictlyIncreasingNoDuplicates(ks);
    forall j | 0 <= j < |rows| ensures keyOf(rows[j]) in ks {
      assert Keys(rows, keyOf)[j] in Keys(rows, keyOf);
    }
    AllRowsOfGroups(rows, ks, keyOf, order);
    PartsPermute(rows, ks, keyOf);
  }
}
