/** `prepare_lagged_alpha_df` and the counting in `process_and_regress`:
    every fund's interval alphas, in interval order, are paired with the
    alpha of the interval before; the first interval of a fund has none and
    is dropped. The regression behind each fund's p-value is not modelled:
    the p-value is a parameter. */
module Lagged {
  import opened Outcomes
  import opened SeqUtil
  import opened Sorting
  import opened Grouping
  import opened Intervals
  import opened RealArith

  /** A row of the lagged table: Fund_ID, Interval, Alpha, Lagged_Alpha. */
  datatype LaggedRow = LaggedRow(fund: int, interval: int, alpha: real, lagged: real)

  /** `Series.shift(1)`: every value moves one row down and the first row
      becomes NaN (None). */
  function Shift(xs: seq<real>): (r: seq<Option<real>>)
    ensures |r| == |xs|
    ensures |xs| > 0 ==> r[0] == None
    ensures forall j :: 0 < j < |xs| ==> r[j] == Some(xs[j - 1])
  {
    if |xs| == 0 then []
    else if |xs| == 1 then [None]
    else Shift(xs[..|xs| - 1]) + [Some(xs[|xs| - 2])]
  }

  /** Attaches the shifted column to the rows and drops the rows where it is
      NaN (`dropna`). */
  function DropMissing(rows: seq<AlphaRow>, lags: seq<Option<real>>): (r: seq<LaggedRow>)
    requires |lags| == |rows|
    ensures |r| <= |rows|
  {
    if |rows| == 0 then []
    else
      var n := |rows| - 1;
      var x := rows[n];
      DropMissing(rows[..n], lags[..n])
        + (match lags[n] case None => [] case Some(l) => [LaggedRow(x.fund, x.interval, x.alpha, l)])
  }

  /** One fund's lagged rows: row j + 1 of the group, carrying the alpha of row j. */
  function LagGroup(group: seq<AlphaRow>): (r: seq<LaggedRow>)
    ensures |group| > 0 ==> |r| == |group| - 1
    ensures |group| == 0 ==> r == []
    ensures forall j :: 0 <= j < |r| ==> LagOf(group, j, r[j])
  {
    LagGroupShape(group);
    DropMissing(group, Shift(Alphas(group)))
  }

  lemma {:induction false} LagGroupShape(group: seq<AlphaRow>)
    ensures var r := DropMissing(group, Shift(Alphas(group)));
      && (|group| > 0 ==> |r| == |group| - 1)
      && (|group| == 0 ==> r == [])
      && forall j :: 0 <= j < |r| ==> LagOf(group, j, r[j])
    decreases |group|
  {
    if |group| > 1 {
      var n := |group| - 1;
      LagGroupShape(group[..n]);
      LagGroupStep(group);
      LagsExtend(group, DropMissing(group[..n], Shift(Alphas(group[..n]))));
    } else if |group| == 1 {
      assert DropMissing(group, Shift(Alphas(group))) == DropMissing([], []) + [];
    }
  }

  /** `o` is row `j + 1` of the group carrying row j's alpha as its lag. */
  predicate LagOf(group: seq<AlphaRow>, j: nat, o: LaggedRow)
  {
    j + 1 < |group| && o == LaggedRow(group[j + 1].fund, group[j + 1].interval, group[j + 1].alpha, group[j].alpha)
  }

  /** One more row in the group adds one lagged row at the end. */
  lemma {:induction false} LagGroupStep(group: seq<AlphaRow>)
    requires |group| > 1
    ensures var n := |group| - 1;
      DropMissing(group, Shift(Alphas(group)))
      == DropMissing(group[..n], Shift(Alphas(group[..n]))) + [LaggedRow(group[n].fund, group[n].interval, group[n].alpha, group[n - 1].alpha)]
  {
    var n := |group| - 1;
    var init := group[..n];
    assert Alphas(group)[..n] == Alphas(init);
    assert Shift(Alphas(group))[..n] == Shift(Alphas(init));
    assert Shift(Alphas(group))[n] == Some(group[n - 1].alpha);
  }

  /** The lagged rows of all but the last row, followed by the lagged last
      row, are the lagged rows of the group. */
  lemma {:induction false} LagsExtend(group: seq<AlphaRow>, r0: seq<LaggedRow>)
    requires |group| > 1 && |r0| == |group| - 2
    requires forall j :: 0 <= j < |r0| ==> LagOf(group[..|group| - 1], j, r0[j])
    ensures var n := |group| - 1;
      var r := r0 + [LaggedRow(group[n].fund, group[n].interval, group[n].alpha, group[n - 1].alpha)];
      forall j :: 0 <= j < |r| ==> LagOf(group, j, r[j])
  {
    var n := |group| - 1;
    var r := r0 + [LaggedRow(group[n].fund, group[n].interval, group[n].alpha, group[n - 1].alpha)];
    forall j | 0 <= j < |r| ensures LagOf(group, j, r[j]) {
      if j < |r0| {
        assert LagOf(group[..n], j, r0[j]);
        assert group[..n][j] == group[j] && group[..n][j + 1] == group[j + 1];
      }
    }
  }

  /** Nothing is lost for a fund with at least two intervals: the first
      lagged value followed by the kept alphas gives back its alpha column. */
  lemma {:induction false} LagGroupRecoversAlphas(group: seq<AlphaRow>)
    requires |group| >= 2
    ensures var r := LagGroup(group);
      && |Alphas(group)| == |r| + 1
      && Alphas(group)[0] == r[0].lagged
      && forall j :: 0 <= j < |r| ==> Alphas(group)[j + 1] == r[j].alpha
  {
    var r := LagGroup(group);
    assert r[0] == LaggedRow(group[1].fund, group[1].interval, group[1].alpha, group[0].alpha);
  }

  /** The sort key of `sort_values(by='Interval')`. */
  function IntervalKey(r: AlphaRow): real { r.interval as real }

  /** The loop over the groups: each group's lagged rows, group after group. */
  function LaggedGroups(g: seq<FundHistory<AlphaRow>>): seq<LaggedRow>
  {
    if |g| == 0 then [] else LaggedGroups(g[..|g| - 1]) + LagGroup(g[|g| - 1].rows)
  }

  /** `prepare_lagged_alpha_df`. */
  function PrepareLagged(rows: seq<AlphaRow>): seq<LaggedRow>
  {
    LaggedGroups(GroupBy(rows, FundOf, IntervalKey))
  }

  lemma {:induction false} LaggedGroupsMembers(g: seq<FundHistory<AlphaRow>>, o: LaggedRow) returns (i: nat, j: nat)
    requires o in LaggedGroups(g)
    ensures i < |g| && j < |g[i].rows| - 1 && LagGroup(g[i].rows)[j] == o
    decreases |g|
  {
    var n := |g| - 1;
    if o in LaggedGroups(g[..n]) {
      i, j := LaggedGroupsMembers(g[..n], o);
      assert g[..n][i] == g[i];
    } else {
      var r := LagGroup(g[n].rows);
      assert o in r;
      var k :| 0 <= k < |r| && r[k] == o;
      i, j := n, k;
    }
  }

  lemma {:induction false} LaggedGroupsContain(g: seq<FundHistory<AlphaRow>>, i: nat)
    requires i < |g| && |g[i].rows| >= 2
    ensures LagGroup(g[i].rows)[0] in LaggedGroups(g)
    decreases |g|
  {
    var n := |g| - 1;
    if i < n {
      assert g[..n][i] == g[i];
      LaggedGroupsContain(g[..n], i);
    }
  }

  /** Each fund with n >= 1 rows contributes n - 1 lagged rows. */
  lemma {:induction false} LaggedGroupsSize(g: seq<FundHistory<AlphaRow>>)
    requires forall i :: 0 <= i < |g| ==> |g[i].rows| > 0
    ensures |LaggedGroups(g)| + |g| == |AllRows(g)|
    decreases |g|
  {
    if |g| > 0 {
      LaggedGroupsSize(g[..|g| - 1]);
    }
  }

  /** The lagged table loses exactly one row per fund: its first interval. */
  lemma {:induction false} PrepareLaggedSize(rows: seq<AlphaRow>)
    ensures |PrepareLagged(rows)| + |GroupBy(rows, FundOf, IntervalKey)| == |rows|
  {
    var g := GroupBy(rows, FundOf, IntervalKey);
    LaggedGroupsSize(g);
    GroupByPartitions(rows, FundOf, IntervalKey);
    assert |multiset(AllRows(g))| == |multiset(rows)|;
  }

  /** In a group sorted by interval no member lies strictly between two
      neighbours. */
  lemma {:induction false} NoneBetweenNeighbours(s: seq<AlphaRow>, j: nat, x: AlphaRow)
    requires SortedBy(s, IntervalKey) && j + 1 < |s| && x in s
    ensures !(s[j].interval < x.interval < s[j + 1].interval)
  {
    var k :| 0 <= k < |s| && s[k] == x;
    if k < j {
      assert IntervalKey(s[k]) <= IntervalKey(s[j]);
    } else if k > j + 1 {
      assert IntervalKey(s[j + 1]) <= IntervalKey(s[k]);
    }
  }

  /** Where a lagged row comes from: two neighbouring rows of one fund's
      interval-sorted group. */
  lemma {:induction false} LaggedRowSource(rows: seq<AlphaRow>, o: LaggedRow) returns (h: FundHistory<AlphaRow>, j: nat)
    requires o in PrepareLagged(rows)
    ensures IsGroup(rows, FundOf, IntervalKey, h, o.fund)
    ensures j < |h.rows| - 1 && LagGroup(h.rows)[j] == o
  {
    var g := GroupBy(rows, FundOf, IntervalKey);
    var i;
    i, j := LaggedGroupsMembers(g, o);
    h := g[i];
    assert IsGroup(rows, FundOf, IntervalKey, h, h.fund);
    var next := h.rows[j + 1];
    assert o == LaggedRow(next.fund, next.interval, next.alpha, h.rows[j].alpha);
    assert next in h.rows;
    InGroup(rows, FundOf, IntervalKey, h, h.fund, next);
    assert FundOf(next) == h.fund;
    assert o.fund == h.fund;
  }

  /** `p` is a row of o's fund at an interval at or before o's, carrying
      o's Lagged_Alpha, with no row of the fund strictly between the two. */
  predicate ClosestEarlier(rows: seq<AlphaRow>, p: AlphaRow, o: LaggedRow)
  {
    && p.fund == o.fund
    && p.interval <= o.interval
    && p.alpha == o.lagged
    && forall x :: x in rows && x.fund == o.fund ==> !(p.interval < x.interval < o.interval)
  }

  /** Every lagged row is a row of its fund, and its Lagged_Alpha is the alpha
      of that fund's closest earlier interval: the fund has a row at some
      interval at or before it carrying that alpha, and no row strictly
      between the two. */
  lemma {:induction false} PrepareLaggedPrevious(rows: seq<AlphaRow>, o: LaggedRow)
    requires o in PrepareLagged(rows)
    ensures AlphaRow(o.fund, o.interval, o.alpha) in rows
    ensures exists p :: p in rows && ClosestEarlier(rows, p, o)
  {
    var h, j := LaggedRowSource(rows, o);
    var s := h.rows;
    InGroup(rows, FundOf, IntervalKey, h, o.fund, s[j]);
    InGroup(rows, FundOf, IntervalKey, h, o.fund, s[j + 1]);
    var p := s[j];
    assert s[j + 1] == AlphaRow(o.fund, o.interval, o.alpha);
    assert IntervalKey(s[j]) <= IntervalKey(s[j + 1]);
    forall x | x in rows && x.fund == o.fund
      ensures !(p.interval < x.interval < o.interval)
    {
      InGroup(rows, FundOf, IntervalKey, h, o.fund, x);
      NoneBetweenNeighbours(s, j, x);
    }
  }

  /** A fund appears in the lagged table exactly when it has at least two
      interval rows. */
  lemma {:induction false} PrepareLaggedFunds(rows: seq<AlphaRow>, f: int)
    ensures (exists o :: o in PrepareLagged(rows) && o.fund == f) <==> |RowsOf(rows, f)| >= 2
  {
    if o :| o in PrepareLagged(rows) && o.fund == f {
      var h, j := LaggedRowSource(rows, o);
      assert |multiset(h.rows)| == |multiset(RowsOf(rows, f))|;
    }
    if |RowsOf(rows, f)| >= 2 {
      FundWithTwoRows(rows, f);
    }
  }

  lemma {:induction false} FundWithTwoRows(rows: seq<AlphaRow>, f: int)
    requires |RowsOf(rows, f)| >= 2
    ensures exists o :: o in PrepareLagged(rows) && o.fund == f
  {
    var g := GroupBy(rows, FundOf, IntervalKey);
    var i := GroupOfFund(rows, f);
    var h := g[i];
    LaggedGroupsContain(g, i);
    InGroup(rows, FundOf, IntervalKey, h, f, h.rows[1]);
    assert LagGroup(h.rows)[0].fund == f;
  }

  /** The group of a fund that has rows, and its size. */
  lemma {:induction false} GroupOfFund(rows: seq<AlphaRow>, f: int) returns (i: nat)
    requires |RowsOf(rows, f)| > 0
    ensures var g := GroupBy(rows, FundOf, IntervalKey);
      i < |g| && IsGroup(rows, FundOf, IntervalKey, g[i], f) && |g[i].rows| == |RowsOf(rows, f)|
  {
    var g := GroupBy(rows, FundOf, IntervalKey);
    var x := RowsOf(rows, f)[0];
    assert x in RowsOf(rows, f);
    var k :| 0 <= k < |rows| && rows[k] == x;
    i :| 0 <= i < |g| && g[i].fund == FundOf(rows[k]);
    assert IsGroup(rows, FundOf, IntervalKey, g[i], f);
    assert |multiset(g[i].rows)| == |multiset(RowsOf(rows, f))|;
  }

  /** The significance level of `process_and_regress`. */
  const SignificanceLevel: real := 0.05

  function LaggedFund(r: LaggedRow): int { r.fund }

  /** A fund counts as significant when the p-value of the regression on its
      lagged rows is below 5%. */
  function Significant(lagged: seq<LaggedRow>, pValue: seq<LaggedRow> -> real): int -> bool
  {
    (f: int) => pValue(Part(lagged, LaggedFund, f)) < SignificanceLevel
  }

  datatype Summary = Summary(totalFunds: nat, significantFunds: nat, ratio: real)

  /** One entry of `process_and_regress`'s result: the funds of the lagged
      table, how many of them are significant, and the share that is. */
  function ProcessAndRegress(lagged: seq<LaggedRow>, pValue: seq<LaggedRow> -> real): (s: Summary)
    ensures s.totalFunds == |SortedDistinct(Keys(lagged, LaggedFund))|
    ensures s.significantFunds == CountIf(SortedDistinct(Keys(lagged, LaggedFund)), Significant(lagged, pValue))
    ensures s.significantFunds <= s.totalFunds
    ensures 0.0 <= s.ratio <= 1.0
    ensures s.totalFunds == 0 ==> s.ratio == 0.0
    ensures s.totalFunds > 0 ==> (s.ratio == 1.0 <==> s.significantFunds == s.totalFunds)
    ensures s.ratio == 0.0 <==> s.significantFunds == 0
  {
    var funds := SortedDistinct(Keys(lagged, LaggedFund));
    var total := |funds|;
    var sig := CountIf(funds, Significant(lagged, pValue));
    if total > 0 then
      RatioBounds(sig, total);
      Summary(total, sig, sig as real / total as real)
    else
      Summary(total, sig, 0.0)
  }

  lemma {:induction false} RatioBounds(sig: nat, total: nat)
    requires 0 < total && sig <= total
    ensures 0.0 <= sig as real / total as real <= 1.0
    ensures sig as real / total as real == 1.0 <==> sig == total
    ensures sig as real / total as real == 0.0 <==> sig == 0
  {
    QuotientVersusOne(sig as real, total as real);
    QuotientSign(sig as real, total as real);
  }

  /** The funds with at least two interval rows, in ascending order. */
  function FundsWithHistory(rows: seq<AlphaRow>): seq<int>
  {
    SortedDistinct(Filter(Keys(rows, FundOf), (f: int) => |RowsOf(rows, f)| >= 2))
  }

  /** The funds `process_and_regress` iterates over are exactly the funds
      with at least two interval rows. */
  lemma {:induction false} LaggedFundsHaveHistory(rows: seq<AlphaRow>)
    ensures SortedDistinct(Keys(PrepareLagged(rows), LaggedFund)) == FundsWithHistory(rows)
  {
    var a := SortedDistinct(Keys(PrepareLagged(rows), LaggedFund));
    var b := FundsWithHistory(rows);
    forall f ensures f in a <==> f in b {
      LaggedKeys(rows, f);
      HistoryKeys(rows, f);
    }
    IncreasingUnique(a, b);
  }

  lemma {:induction false} LaggedKeys(rows: seq<AlphaRow>, f: int)
    ensures f in Keys(PrepareLagged(rows), LaggedFund) <==> |RowsOf(rows, f)| >= 2
  {
    KeysMember(PrepareLagged(rows), LaggedFund, f);
    PrepareLaggedFunds(rows, f);
  }

  lemma {:induction false} HistoryKeys(rows: seq<AlphaRow>, f: int)
    ensures f in Filter(Keys(rows, FundOf), (f: int) => |RowsOf(rows, f)| >= 2) <==> |RowsOf(rows, f)| >= 2
  {
    KeysMember(rows, FundOf, f);
    if |RowsOf(rows, f)| >= 2 {
      assert RowsOf(rows, f)[0] in RowsOf(rows, f);
    }
  }

  /** `pd.DataFrame()` with no `Fund_ID` column: an empty alpha frame makes
      `prepare_lagged_alpha_df` return it, and grouping it by `Fund_ID`
      raises KeyError. */
  datatype RegressError = MissingFundColumn

  /** One entry of `process_and_regress`: the lagged table of one alpha
      frame, then the count of its significant funds. An empty frame fails
      with the KeyError; otherwise the funds counted are exactly those with
      at least two intervals, and the significant ones are those among them
      whose lagged regression has p below 5%. */
  function PrepareAndRegress(rows: seq<AlphaRow>, pValue: seq<LaggedRow> -> real): (r: Result<Summary, RegressError>)
    ensures r.Err? <==> |rows| == 0
    ensures r.Ok? ==> r.value.totalFunds == |FundsWithHistory(rows)|
    ensures r.Ok? ==> r.value.significantFunds == CountIf(FundsWithHistory(rows), Significant(PrepareLagged(rows), pValue))
  {
    if |rows| == 0 then Err(MissingFundColumn)
    else
      LaggedFundsHaveHistory(rows);
      Ok(ProcessAndRegress(PrepareLagged(rows), pValue))
  }
}
