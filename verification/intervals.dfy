/** Splitting each fund's monthly history into fixed-size, non-overlapping
    windows and recording one alpha per complete window
    (`calculate_alpha_for_intervals`; the same loop shape drives
    `calculate_alpha_from_results`). The alpha of a window comes from a
    regression this model does not see, so it is a parameter. */
module Intervals {
  import opened Outcomes
  import opened SeqUtil
  import opened Grouping
  import Stats

  /** One row of the interval-alpha table: columns Fund_ID, Interval, Alpha. */
  datatype AlphaRow = AlphaRow(fund: int, interval: int, alpha: real)

  /** `range(0, n, 0)` raises ValueError in Python. */
  datatype WindowError = ZeroStep

  function Min(a: int, b: int): int { if a <= b then a else b }

  /** The loop `for i in range(0, len(group), k)` from start index `i` on:
      the slice `group.iloc[i:i + k]` emits a row only when it holds `k` rows. */
  function WindowsFrom<R>(fund: int, rows: seq<R>, k: nat, i: nat, alphaOf: seq<R> -> real): seq<AlphaRow>
    requires k > 0
    decreases |rows| - i
  {
    if i >= |rows| then []
    else
      var window := rows[i .. Min(i + k, |rows|)];
      (if |window| == k then [AlphaRow(fund, i / k, alphaOf(window))] else [])
        + WindowsFrom(fund, rows, k, i + k, alphaOf)
  }

  /** The rows one fund contributes for window size `k`. */
  function FundWindows<R>(h: FundHistory<R>, k: int, alphaOf: seq<R> -> real): Result<seq<AlphaRow>, WindowError>
  {
    if k == 0 then Err(ZeroStep)
    else if k < 0 then Ok([])
    else Ok(WindowsFrom(h.fund, h.rows, k, 0, alphaOf))
  }

  /** `calculate_alpha_for_intervals`: the rows of every fund, fund after fund. */
  function IntervalAlphas<R>(funds: seq<FundHistory<R>>, k: int, alphaOf: seq<R> -> real): Result<seq<AlphaRow>, WindowError>
  {
    if |funds| == 0 then Ok([])
    else
      match IntervalAlphas(funds[..|funds| - 1], k, alphaOf)
      case Err(e) => Err(e)
      case Ok(prefix) =>
        match FundWindows(funds[|funds| - 1], k, alphaOf)
        case Err(e) => Err(e)
        case Ok(last) => Ok(prefix + last)
  }

  /** The rows `j * k .. j * k + k - 1` of `rows`, as far as they exist. */
  function Window<R>(rows: seq<R>, k: nat, j: nat): seq<R>
  {
    if (j + 1) * k <= |rows| then rows[j * k .. j * k + k]
    else if j * k <= |rows| then rows[j * k..]
    else []
  }

  /** Multiplying by a positive k keeps the order of whole numbers. */
  lemma {:induction false} MulMonotone(a: int, b: int, k: nat)
    ensures a <= b ==> a * k <= b * k
  {
    if a <= b {
      assert b * k == a * k + (b - a) * k;
    }
  }

  lemma {:induction false} DivExact(n: nat, k: nat, q: nat)
    requires k > 0 && q * k <= n < q * k + k
    ensures n / k == q
  {
    var d := n / k;
    assert n == d * k + n % k;
    assert (q + 1) * k == q * k + k;
    assert (d + 1) * k == d * k + k;
    MulMonotone(q + 1, d, k);
    MulMonotone(d + 1, q, k);
  }

  /** `w` holds the rows of windows q, q + 1, ..., in order: each of those
      windows is complete and its row carries its number and its alpha. */
  predicate NumberedWindows<R>(w: seq<AlphaRow>, fund: int, rows: seq<R>, k: nat, q: nat, alphaOf: seq<R> -> real)
  {
    forall n :: q <= n < q + |w| ==>
      && |Window(rows, k, n)| == k
      && w[n - q] == AlphaRow(fund, n, alphaOf(Window(rows, k, n)))
  }

  lemma {:induction false} WindowsFromShape<R>(fund: int, rows: seq<R>, k: nat, q: nat, i: nat, alphaOf: seq<R> -> real)
    requires k > 0 && i == q * k && i <= |rows|
    ensures |rows| / k >= q
    ensures |WindowsFrom(fund, rows, k, i, alphaOf)| == |rows| / k - q
    ensures NumberedWindows(WindowsFrom(fund, rows, k, i, alphaOf), fund, rows, k, q, alphaOf)
    decreases |rows| - i
  {
    if i + k <= |rows| {
      assert (q + 1) * k == i + k;
      WindowsFromShape(fund, rows, k, q + 1, i + k, alphaOf);
      WindowsFromHead(fund, rows, k, q, i, alphaOf);
      NumberedCons(WindowsFrom(fund, rows, k, i + k, alphaOf), fund, rows, k, q, alphaOf);
    } else {
      WindowsFromEnd(fund, rows, k, q, i, alphaOf);
    }
  }

  /** The row of window q followed by the rows of windows q + 1, ... */
  lemma {:induction false} NumberedCons<R>(rest: seq<AlphaRow>, fund: int, rows: seq<R>, k: nat, q: nat, alphaOf: seq<R> -> real)
    requires |Window(rows, k, q)| == k
    requires NumberedWindows(rest, fund, rows, k, q + 1, alphaOf)
    ensures NumberedWindows([AlphaRow(fund, q, alphaOf(Window(rows, k, q)))] + rest, fund, rows, k, q, alphaOf)
  {
    var w := [AlphaRow(fund, q, alphaOf(Window(rows, k, q)))] + rest;
    forall n | q < n < q + |w|
      ensures |Window(rows, k, n)| == k && w[n - q] == AlphaRow(fund, n, alphaOf(Window(rows, k, n)))
    {
      assert w[n - q] == rest[n - (q + 1)];
    }
  }

  /** A complete window at `i = q * k` emits its row, numbered q. */
  lemma {:induction false} WindowsFromHead<R>(fund: int, rows: seq<R>, k: nat, q: nat, i: nat, alphaOf: seq<R> -> real)
    requires k > 0 && i == q * k && i + k <= |rows|
    ensures |Window(rows, k, q)| == k
    ensures WindowsFrom(fund, rows, k, i, alphaOf)
         == [AlphaRow(fund, q, alphaOf(Window(rows, k, q)))] + WindowsFrom(fund, rows, k, i + k, alphaOf)
  {
    assert (q + 1) * k == i + k;
    DivExact(i, k, q);
    assert Min(i + k, |rows|) == i + k;
    assert Window(rows, k, q) == rows[i .. i + k];
  }

  /** Fewer than k rows from `i = q * k` on: no row is emitted, and q is the
      number of complete windows. */
  lemma {:induction false} WindowsFromEnd<R>(fund: int, rows: seq<R>, k: nat, q: nat, i: nat, alphaOf: seq<R> -> real)
    requires k > 0 && i == q * k && i <= |rows| < i + k
    ensures |rows| / k == q
    ensures WindowsFrom(fund, rows, k, i, alphaOf) == []
  {
    DivExact(|rows|, k, q);
    if i < |rows| {
      assert Min(i + k, |rows|) == |rows|;
      assert |rows[i .. |rows|]| < k;
      assert WindowsFrom(fund, rows, k, i + k, alphaOf) == [];
    }
  }

  /** A fund with `n` rows contributes exactly `n / k` rows, one per complete
      window, numbered 0, 1, ..., n / k - 1 in order, each carrying the alpha
      of exactly the `k` rows of its window. */
  lemma {:induction false} FundWindowsShape<R>(h: FundHistory<R>, k: int, alphaOf: seq<R> -> real)
    requires k > 0
    ensures FundWindows(h, k, alphaOf).Ok?
    ensures |FundWindows(h, k, alphaOf).value| == |h.rows| / k
    ensures forall j :: 0 <= j < |FundWindows(h, k, alphaOf).value| ==>
      && |Window(h.rows, k, j)| == k
      && FundWindows(h, k, alphaOf).value[j] == AlphaRow(h.fund, j, alphaOf(Window(h.rows, k, j)))
  {
    var w := WindowsFrom(h.fund, h.rows, k, 0, alphaOf);
    assert FundWindows(h, k, alphaOf).value == w;
    WindowsFromShape(h.fund, h.rows, k, 0, 0, alphaOf);
    forall j | 0 <= j < |w|
      ensures |Window(h.rows, k, j)| == k
      ensures w[j] == AlphaRow(h.fund, j, alphaOf(Window(h.rows, k, j)))
    {
      assert w[j - 0] == w[j];
    }
  }

  /** Total rows of the table: each fund's complete-window count. */
  function WindowCount<R>(funds: seq<FundHistory<R>>, k: nat): nat
    requires k > 0
  {
    if |funds| == 0 then 0 else WindowCount(funds[..|funds| - 1], k) + |funds[|funds| - 1].rows| / k
  }

  /** With a positive window size the table never fails and holds exactly the
      sum over funds of `n div k` rows. */
  lemma {:induction false} IntervalAlphasPositive<R>(funds: seq<FundHistory<R>>, k: int, alphaOf: seq<R> -> real)
    requires k > 0
    ensures IntervalAlphas(funds, k, alphaOf).Ok?
    ensures |IntervalAlphas(funds, k, alphaOf).value| == WindowCount(funds, k)
    decreases |funds|
  {
    if |funds| > 0 {
      IntervalAlphasPositive(funds[..|funds| - 1], k, alphaOf);
      FundWindowsShape(funds[|funds| - 1], k, alphaOf);
    }
  }

  /** A zero window size fails with the ValueError of `range` exactly when
      there is a fund to process. */
  lemma {:induction false} IntervalAlphasZero<R>(funds: seq<FundHistory<R>>, alphaOf: seq<R> -> real)
    ensures |funds| > 0 ==> IntervalAlphas(funds, 0, alphaOf) == Err(ZeroStep)
    ensures |funds| == 0 ==> IntervalAlphas(funds, 0, alphaOf) == Ok([])
    decreases |funds|
  {
    if |funds| > 0 {
      IntervalAlphasZero(funds[..|funds| - 1], alphaOf);
      assert FundWindows(funds[|funds| - 1], 0, alphaOf) == Err(ZeroStep);
    }
  }

  /** A negative window size yields no rows. */
  lemma {:induction false} IntervalAlphasNegative<R>(funds: seq<FundHistory<R>>, k: int, alphaOf: seq<R> -> real)
    requires k < 0
    ensures IntervalAlphas(funds, k, alphaOf) == Ok([])
    decreases |funds|
  {
    if |funds| > 0 {
      var init := funds[..|funds| - 1];
      IntervalAlphasNegative(init, k, alphaOf);
      var none: seq<AlphaRow> := [];
      assert FundWindows(funds[|funds| - 1], k, alphaOf) == Ok(none);
      assert none + none == none;
    }
  }

  /** The three cases together: the size of the table for every window size. */
  lemma {:induction false} IntervalAlphasSize<R>(funds: seq<FundHistory<R>>, k: int, alphaOf: seq<R> -> real)
    ensures k > 0 ==> IntervalAlphas(funds, k, alphaOf).Ok? && |IntervalAlphas(funds, k, alphaOf).value| == WindowCount(funds, k)
    ensures k == 0 ==> (IntervalAlphas(funds, k, alphaOf).Err? <==> |funds| > 0)
    ensures k < 0 ==> IntervalAlphas(funds, k, alphaOf) == Ok([])
  {
    if k > 0 {
      IntervalAlphasPositive(funds, k, alphaOf);
    } else if k == 0 {
      IntervalAlphasZero(funds, alphaOf);
    } else {
      IntervalAlphasNegative(funds, k, alphaOf);
    }
  }

  /** Selections on the interval-alpha table used by the persistence tests. */

  function IntervalOf(r: AlphaRow): int { r.interval }

  function FundOf(r: AlphaRow): int { r.fund }

  /** `alpha_df[alpha_df['Interval'] == iv]`, in row order. */
  function RowsAt(rows: seq<AlphaRow>, iv: int): seq<AlphaRow>
  {
    Part(rows, IntervalOf, iv)
  }

  /** `alpha_df[alpha_df['Fund_ID'] == fund]`, in row order. */
  function RowsOf(rows: seq<AlphaRow>, fund: int): seq<AlphaRow>
  {
    Part(rows, FundOf, fund)
  }

  function Alphas(rows: seq<AlphaRow>): (a: seq<real>)
    ensures |a| == |rows|
    ensures forall j :: 0 <= j < |rows| ==> a[j] == rows[j].alpha
  {
    if |rows| == 0 then [] else Alphas(rows[..|rows| - 1]) + [rows[|rows| - 1].alpha]
  }

  function IntervalsOf(rows: seq<AlphaRow>): (ivs: seq<int>)
    ensures |ivs| == |rows|
    ensures forall j :: 0 <= j < |rows| ==> ivs[j] == rows[j].interval
  {
    if |rows| == 0 then [] else IntervalsOf(rows[..|rows| - 1]) + [rows[|rows| - 1].interval]
  }

  function FundsOf(rows: seq<AlphaRow>): (fs: seq<int>)
    ensures |fs| == |rows|
    ensures forall j :: 0 <= j < |rows| ==> fs[j] == rows[j].fund
  {
    if |rows| == 0 then [] else FundsOf(rows[..|rows| - 1]) + [rows[|rows| - 1].fund]
  }

  /** Row `j` is the first row of `fund` at interval `iv`. */
  predicate FirstMatch(rows: seq<AlphaRow>, fund: int, iv: int, j: nat)
  {
    && j < |rows| && rows[j].fund == fund && rows[j].interval == iv
    && forall i :: 0 <= i < j ==> !(rows[i].fund == fund && rows[i].interval == iv)
  }

  /** The first Alpha of `fund` at interval `iv` (the `.values[0]` of the
      source), or None when the fund has no row there. */
  function FirstAlpha(rows: seq<AlphaRow>, fund: int, iv: int): (a: Option<real>)
    ensures a.Some? <==> exists j :: 0 <= j < |rows| && rows[j].fund == fund && rows[j].interval == iv
    ensures a.Some? ==> exists j: nat :: FirstMatch(rows, fund, iv, j) && rows[j].alpha == a.value
  {
    if |rows| == 0 then None
    else if rows[0].fund == fund && rows[0].interval == iv then
      assert FirstMatch(rows, fund, iv, 0);
      Some(rows[0].alpha)
    else
      var a := FirstAlpha(rows[1..], fund, iv);
      assert forall j :: 0 < j < |rows| ==> rows[j] == rows[1..][j - 1];
      if a.Some? then
        var j: nat :| FirstMatch(rows[1..], fund, iv, j) && rows[1..][j].alpha == a.value;
        assert FirstMatch(rows, fund, iv, j + 1);
        a
      else
        a
  }

  /** pandas `median()` of the Alphas at interval `iv`; requires the interval
      to occur, which is the case wherever the source asks for it. */
  function MedianAt(rows: seq<AlphaRow>, iv: int): real
    requires exists j :: 0 <= j < |rows| && rows[j].interval == iv
  {
    var at := RowsAt(rows, iv);
    var j :| 0 <= j < |rows| && rows[j].interval == iv;
    assert rows[j] in at;
    Stats.Median(Alphas(at))
  }
}
