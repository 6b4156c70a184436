/** The cross-product ratio and the chi-square statistic of
    `calculate_cpr_z_chisq`, computed from the column sums of the
    contingency table. Integer counts are exact and the quotients are exact
    reals; where NumPy would divide by zero (yielding inf or nan) the model
    returns None. */
module PersistenceStats {
  import opened Outcomes
  import opened Contingency
  import opened RealArith

  /** `contingency_table['WW'].sum()` and its three siblings. */
  function ColumnTotals(table: seq<TableRow>): Counts
  {
    if |table| == 0 then Zero() else Add(ColumnTotals(table[..|table| - 1]), table[|table| - 1].cell)
  }

  lemma {:induction false} AddAssociative(x: Counts, y: Counts, z: Counts)
    ensures Add(Add(x, y), z) == Add(x, Add(y, z))
  {
  }

  lemma {:induction false} AddSwap(p: Counts, x: Counts, q: Counts)
    ensures Add(Add(p, x), q) == Add(Add(p, q), x)
  {
  }

  lemma {:induction false} AddZero(x: Counts)
    ensures Add(x, Zero()) == x && Add(Zero(), x) == x
  {
  }

  lemma {:induction false} ColumnTotalsAppend(a: seq<TableRow>, b: seq<TableRow>)
    ensures ColumnTotals(a + b) == Add(ColumnTotals(a), ColumnTotals(b))
    decreases |b|
  {
    if |b| == 0 {
      assert a + b == a;
      AddZero(ColumnTotals(a));
    } else {
      var b' := b[..|b| - 1];
      var last := b[|b| - 1].cell;
      assert (a + b)[..|a + b| - 1] == a + b';
      assert (a + b)[|a + b| - 1].cell == last;
      ColumnTotalsAppend(a, b');
      assert ColumnTotals(a + b) == Add(ColumnTotals(a + b'), last);
      AddAssociative(ColumnTotals(a), ColumnTotals(b'), last);
    }
  }

  /** The column sums do not depend on the order of the table's rows, so
      none of the statistics depends on the order of the intervals in the
      table's index. */
  lemma {:induction false} ColumnTotalsPermutation(s: seq<TableRow>, t: seq<TableRow>)
    requires multiset(s) == multiset(t)
    ensures ColumnTotals(s) == ColumnTotals(t)
    decreases |s|
  {
    if |s| == 0 {
      assert |t| == |multiset(t)| == 0;
    } else {
      var init, x := s[..|s| - 1], s[|s| - 1];
      assert s == init + [x];
      assert x in multiset(t);
      var k :| 0 <= k < |t| && t[k] == x;
      var t' := t[..k] + t[k + 1..];
      assert t == t[..k] + [x] + t[k + 1..];
      assert multiset(t') == multiset(t) - multiset{x};
      assert multiset(init) == multiset(s) - multiset{x};
      ColumnTotalsPermutation(init, t');
      ColumnTotalsRemove(t, k);
    }
  }

  /** Taking out one row takes its cell out of the totals. */
  lemma {:induction false} ColumnTotalsRemove(t: seq<TableRow>, k: nat)
    requires k < |t|
    ensures ColumnTotals(t) == Add(ColumnTotals(t[..k] + t[k + 1..]), t[k].cell)
  {
    var x := t[k];
    assert t == t[..k] + [x] + t[k + 1..];
    ColumnTotalsAppend(t[..k] + [x], t[k + 1..]);
    ColumnTotalsAppend(t[..k], [x]);
    ColumnTotalsAppend(t[..k], t[k + 1..]);
    assert ColumnTotals([x]) == Add(Zero(), x.cell) by {
      assert [x][..0] == [];
    }
    AddZero(x.cell);
    var p, q := ColumnTotals(t[..k]), ColumnTotals(t[k + 1..]);
    assert ColumnTotals(t) == Add(Add(p, x.cell), q);
    AddSwap(p, x.cell, q);
  }

  lemma {:induction false} ProductZero(a: nat, b: nat)
    ensures a * b == 0 <==> a == 0 || b == 0
  {
    if a != 0 && b != 0 {
      assert a * b >= b by {
        assert a * b == (a - 1) * b + b;
      }
    }
  }

  function Cpr(c: Counts): (r: Option<real>)
    ensures r.Some? <==> c.wl != 0 && c.lw != 0
    ensures r.Some? ==> r.value >= 0.0
    ensures r.Some? ==> (r.value > 1.0 <==> c.ww * c.ll > c.wl * c.lw)
    ensures r.Some? ==> (r.value == 1.0 <==> c.ww * c.ll == c.wl * c.lw)
  {
    ProductZero(c.wl, c.lw);
    if c.wl * c.lw == 0 then None
    else
      var num := (c.ww * c.ll) as real;
      var den := (c.wl * c.lw) as real;
      QuotientVersusOne(num, den);
      Some(num / den)
  }

  /** Expected counts D1..D4 under independence, for cells WW, WL, LW, LL. */
  datatype Expected = Expected(d1: real, d2: real, d3: real, d4: real)

  function N(c: Counts): nat { Total(c) }

  /** D1..D4 of the source; None when N = 0 (NumPy would give nan). */
  function ExpectedCounts(c: Counts): (e: Option<Expected>)
    ensures e.Some? <==> N(c) > 0
  {
    if N(c) == 0 then None
    else
      var n := N(c) as real;
      var ww, ll, wl, lw := c.ww as real, c.ll as real, c.wl as real, c.lw as real;
      Some(Expected(
        (ww + wl) * (ww + lw) / n,
        (wl + ll) * (ww + wl) / n,
        (lw + ll) * (ww + lw) / n,
        (lw + ll) * (wl + ll) / n))
  }

  /** One cell's contribution (observed - expected)^2 / expected, written
      as d * (d / expected) so that its two factors stay apart. */
  function Term(observed: nat, expected: real): real
    requires expected != 0.0
  {
    var d := observed as real - expected;
    d * (d / expected)
  }

  /** The chi-square statistic; None when N = 0 or an expected count is zero
      (the source would divide by zero there). */
  function ChiSquare(c: Counts): Option<real>
  {
    match ExpectedCounts(c)
    case None => None
    case Some(e) =>
      if e.d1 == 0.0 || e.d2 == 0.0 || e.d3 == 0.0 || e.d4 == 0.0 then None
      else Some(Term(c.ww, e.d1) + Term(c.wl, e.d2) + Term(c.lw, e.d3) + Term(c.ll, e.d4))
  }

  /** The expected counts add up to N: they redistribute the observed funds. */
  lemma {:induction false} ExpectedSumToN(c: Counts)
    requires N(c) > 0
    ensures var e := ExpectedCounts(c).value; e.d1 + e.d2 + e.d3 + e.d4 == N(c) as real
  {
    var ww, ll, wl, lw := c.ww as real, c.ll as real, c.wl as real, c.lw as real;
    assert N(c) as real == ww + ll + wl + lw;
    ExpectedSum(ww, ll, wl, lw);
  }

  /** The same identity on the cell values. */
  lemma {:induction false} ExpectedSum(ww: real, ll: real, wl: real, lw: real)
    requires ww + ll + wl + lw > 0.0
    ensures var n := ww + ll + wl + lw;
      (ww + wl) * (ww + lw) / n + (wl + ll) * (ww + wl) / n + (lw + ll) * (ww + lw) / n + (lw + ll) * (wl + ll) / n == n
  {
    var n := ww + ll + wl + lw;
    var row1, row2, col1, col2 := ww + wl, lw + ll, ww + lw, wl + ll;
    var p1, p2, p3, p4 := row1 * col1, col2 * row1, row2 * col1, row2 * col2;
    FactorOut(row1, col1, col2);
    FactorOut(row2, col1, col2);
    FactorOut(n, row1, row2);
    assert col1 + col2 == n && row1 + row2 == n;
    assert p1 + p2 + p3 + p4 == n * n;
    QuotientsAdd(p1, p2, p3, p4, n);
  }

  lemma {:induction false} FactorOut(x: real, y: real, z: real)
    ensures x * y + z * x == x * (y + z)
    ensures x * y + x * z == x * (y + z)
  {
  }

  lemma {:induction false} QuotientsAdd(a: real, b: real, c: real, d: real, n: real)
    requires n > 0.0 && a + b + c + d == n * n
    ensures a / n + b / n + c / n + d / n == n
  {
    assert a / n + b / n + c / n + d / n == (a + b + c + d) / n;
  }

  /** Every cell deviates from its expected count by the same amount,
      (WW * LL - WL * LW) / N, with the sign of a persistent (WW, LL) or a
      reversing (WL, LW) cell. */
  lemma {:induction false} Deviations(c: Counts)
    requires N(c) > 0
    ensures var e := ExpectedCounts(c).value;
      var delta := (c.ww * c.ll - c.wl * c.lw) as real / N(c) as real;
      && c.ww as real - e.d1 == delta
      && c.wl as real - e.d2 == -delta
      && c.lw as real - e.d3 == -delta
      && c.ll as real - e.d4 == delta
  {
    var n := N(c) as real;
    var ww, ll, wl, lw := c.ww as real, c.ll as real, c.wl as real, c.lw as real;
    var e := ExpectedCounts(c).value;
    assert n == ww + ll + wl + lw;
    assert (c.ww * c.ll - c.wl * c.lw) as real == ww * ll - wl * lw;
    assert ww * n - (ww + wl) * (ww + lw) == ww * ll - wl * lw;
    assert wl * n - (wl + ll) * (ww + wl) == wl * lw - ww * ll;
    assert lw * n - (lw + ll) * (ww + lw) == wl * lw - ww * ll;
    assert ll * n - (lw + ll) * (wl + ll) == ww * ll - wl * lw;
    assert ww - e.d1 == (ww * n - (ww + wl) * (ww + lw)) / n;
    assert wl - e.d2 == (wl * n - (wl + ll) * (ww + wl)) / n;
    assert lw - e.d3 == (lw * n - (lw + ll) * (ww + lw)) / n;
    assert ll - e.d4 == (ll * n - (lw + ll) * (wl + ll)) / n;
  }

  lemma {:induction false} TermNonNegative(observed: nat, expected: real)
    requires expected > 0.0
    ensures Term(observed, expected) >= 0.0
    ensures Term(observed, expected) == 0.0 <==> observed as real == expected
  {
    var d := observed as real - expected;
    QuotientSign(d, expected);
    if d > 0.0 {
      MulPositive(d, d / expected);
    } else if d < 0.0 {
      MulPositive(-d, -(d / expected));
    }
  }

  /** With every expected count positive, chi-square is non-negative, and it
      is zero exactly when WW * LL = WL * LW, that is, when the CPR (where
      defined) is 1: no persistence either way. */
  lemma {:induction false} ChiSquareSign(c: Counts)
    requires N(c) > 0
    requires var e := ExpectedCounts(c).value; e.d1 > 0.0 && e.d2 > 0.0 && e.d3 > 0.0 && e.d4 > 0.0
    ensures ChiSquare(c).Some?
    ensures ChiSquare(c).value >= 0.0
    ensures ChiSquare(c).value == 0.0 <==> c.ww * c.ll == c.wl * c.lw
  {
    var e := ExpectedCounts(c).value;
    Deviations(c);
    TermNonNegative(c.ww, e.d1);
    TermNonNegative(c.wl, e.d2);
    TermNonNegative(c.lw, e.d3);
    TermNonNegative(c.ll, e.d4);
    var t1, t2, t3, t4 := Term(c.ww, e.d1), Term(c.wl, e.d2), Term(c.lw, e.d3), Term(c.ll, e.d4);
    assert ChiSquare(c) == Some(t1 + t2 + t3 + t4);
    var num := c.ww * c.ll - c.wl * c.lw;
    var delta := num as real / N(c) as real;
    QuotientSign(num as real, N(c) as real);
    assert t1 == 0.0 <==> delta == 0.0;
    assert t2 == 0.0 <==> delta == 0.0;
    assert t3 == 0.0 <==> delta == 0.0;
    assert t4 == 0.0 <==> delta == 0.0;
    assert delta == 0.0 <==> num == 0;
  }
}
