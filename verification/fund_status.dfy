/** `analyze_fund_data`: every fund's first and last record date, its
    lifecycle in whole 30-day months, whether it is still active, and the
    summary counts over all funds. */
module FundStatus {
  import opened Outcomes
  import opened SeqUtil
  import opened Sorting
  import opened Grouping
  import opened Calendar
  import Stats

  /** One row of the raw fund table: Fund_ID and Date. */
  datatype Record = Record(fund: int, date: ValidDate)

  function RecordFund(r: Record): int { r.fund }

  function RecordOrder(r: Record): real { DateKey(r.date) }

  /** A fund counts as active when its last record is on or after 1 May 2024. */
  const ActiveThreshold: ValidDate := Date(2024, 5, 1)

  /** One row of `fund_lifecycle`: min, max, Lifecycle and Status. */
  datatype Lifecycle = Lifecycle(fund: int, first: ValidDate, last: ValidDate, months: nat, active: bool)

  /** Ordering by day number is chronological order. */
  lemma {:induction false} KeyOrder(a: ValidDate, b: ValidDate)
    requires DateKey(a) <= DateKey(b)
    ensures AtOrBefore(a, b)
  {
    DayNumberOrder(a, b);
  }

  /** A fund's lifecycle row from its records in date order: the first and
      last dates bound every record and are themselves record dates, the
      months are the whole 30-day periods between them, and the fund is
      active exactly when one of its records falls on or after the threshold. */
  function Span(h: FundHistory<Record>): (l: Lifecycle)
    requires |h.rows| > 0 && SortedBy(h.rows, RecordOrder)
    ensures l.fund == h.fund
    ensures forall x :: x in h.rows ==> AtOrBefore(l.first, x.date) && AtOrBefore(x.date, l.last)
    ensures exists i :: 0 <= i < |h.rows| && h.rows[i].date == l.first
    ensures exists i :: 0 <= i < |h.rows| && h.rows[i].date == l.last
    ensures l.months * 30 <= DaysBetween(l.first, l.last) < l.months * 30 + 30
    ensures l.active <==> exists i :: 0 <= i < |h.rows| && AtOrBefore(ActiveThreshold, h.rows[i].date)
  {
    var first := h.rows[0].date;
    var last := h.rows[|h.rows| - 1].date;
    SpanBounds(h);
    DayNumberOrder(first, last);
    var days := DaysBetween(first, last);
    var active := AtOrBefore(ActiveThreshold, last);
    ActiveWhenAnyLate(h, last);
    Lifecycle(h.fund, first, last, days / 30, active)
  }

  lemma {:induction false} SpanBounds(h: FundHistory<Record>)
    requires |h.rows| > 0 && SortedBy(h.rows, RecordOrder)
    ensures forall x :: x in h.rows ==> AtOrBefore(h.rows[0].date, x.date) && AtOrBefore(x.date, h.rows[|h.rows| - 1].date)
  {
    forall x | x in h.rows
      ensures AtOrBefore(h.rows[0].date, x.date) && AtOrBefore(x.date, h.rows[|h.rows| - 1].date)
    {
      var i :| 0 <= i < |h.rows| && h.rows[i] == x;
      assert RecordOrder(h.rows[0]) <= RecordOrder(x);
      assert RecordOrder(x) <= RecordOrder(h.rows[|h.rows| - 1]);
      KeyOrder(h.rows[0].date, x.date);
      KeyOrder(x.date, h.rows[|h.rows| - 1].date);
    }
  }

  lemma {:induction false} ActiveWhenAnyLate(h: FundHistory<Record>, last: ValidDate)
    requires |h.rows| > 0 && last == h.rows[|h.rows| - 1].date
    requires forall x :: x in h.rows ==> AtOrBefore(x.date, last)
    ensures AtOrBefore(ActiveThreshold, last) <==> exists i :: 0 <= i < |h.rows| && AtOrBefore(ActiveThreshold, h.rows[i].date)
  {
    if exists i :: 0 <= i < |h.rows| && AtOrBefore(ActiveThreshold, h.rows[i].date) {
      var i :| 0 <= i < |h.rows| && AtOrBefore(ActiveThreshold, h.rows[i].date);
      assert h.rows[i] in h.rows;
      BeforeTransitive(ActiveThreshold, h.rows[i].date, last);
    }
  }

  function IsActive(l: Lifecycle): bool { l.active }

  function IsDead(l: Lifecycle): bool { !l.active }

  function Months(ls: seq<Lifecycle>): (m: seq<real>)
    ensures |m| == |ls|
    ensures forall i :: 0 <= i < |ls| ==> m[i] == ls[i].months as real
  {
    if |ls| == 0 then [] else Months(ls[..|ls| - 1]) + [ls[|ls| - 1].months as real]
  }

  /** The `fund_lifecycle` table: one row per fund, in Fund_ID order. */
  function Lifecycles(records: seq<Record>): (ls: seq<Lifecycle>)
    ensures |ls| == |GroupBy(records, RecordFund, RecordOrder)|
    ensures forall i :: 0 <= i < |ls| ==> ls[i] == Span(GroupBy(records, RecordFund, RecordOrder)[i])
  {
    var g := GroupBy(records, RecordFund, RecordOrder);
    seq(|g|, (i: int) requires 0 <= i < |g| => Span(g[i]))
  }

  /** The five figures of `result_table`; the two averages are absent (NaN in
      pandas) when there are no funds. */
  datatype Summary = Summary(total: nat, active: nat, dead: nat, meanLifecycle: Option<real>, medianLifecycle: Option<real>)

  /** The summary of a lifecycle table: every fund is active or dead, and
      the averages exist exactly when there is a fund and are never negative. */
  function Summarize(ls: seq<Lifecycle>): (s: Summary)
    ensures s.total == |ls|
    ensures s.active + s.dead == s.total
    ensures s.active == CountIf(ls, IsActive)
    ensures s.meanLifecycle.Some? <==> |ls| > 0
    ensures s.medianLifecycle.Some? <==> |ls| > 0
    ensures s.meanLifecycle.Some? ==> s.meanLifecycle.value >= 0.0
    ensures s.medianLifecycle.Some? ==> s.medianLifecycle.value >= 0.0
  {
    ActiveOrDead(ls);
    if |ls| == 0 then Summary(0, 0, 0, None, None)
    else
      var months := Months(ls);
      NonNegativeAverages(months);
      Summary(|ls|, CountIf(ls, IsActive), CountIf(ls, IsDead), Some(Stats.Mean(months)), Some(Stats.Median(months)))
  }

  /** `analyze_fund_data`: the total is the number of distinct Fund_IDs, and
      the averages exist exactly when there is a record. */
  function AnalyzeFundData(records: seq<Record>): (s: Summary)
    ensures s.total == |SortedDistinct(Keys(records, RecordFund))|
    ensures s.active + s.dead == s.total
    ensures s.active == CountIf(Lifecycles(records), IsActive)
    ensures s.meanLifecycle.Some? <==> |records| > 0
    ensures s.medianLifecycle.Some? <==> |records| > 0
  {
    GroupCount(records);
    FundsExist(records);
    Summarize(Lifecycles(records))
  }

  /** There is one group per distinct Fund_ID. */
  lemma {:induction false} GroupCount(records: seq<Record>)
    ensures |GroupBy(records, RecordFund, RecordOrder)| == |SortedDistinct(Keys(records, RecordFund))|
  {
  }

  lemma {:induction false} FundsExist(records: seq<Record>)
    ensures |GroupBy(records, RecordFund, RecordOrder)| > 0 <==> |records| > 0
  {
    var g := GroupBy(records, RecordFund, RecordOrder);
    if |records| > 0 {
      assert exists i :: 0 <= i < |g| && g[i].fund == RecordFund(records[0]);
    }
    if |g| > 0 {
      InGroup(records, RecordFund, RecordOrder, g[0], g[0].fund, g[0].rows[0]);
    }
  }

  lemma {:induction false} ActiveOrDead(ls: seq<Lifecycle>)
    ensures CountIf(ls, IsActive) + CountIf(ls, IsDead) == |ls|
    decreases |ls|
  {
    if |ls| > 0 {
      ActiveOrDead(ls[..|ls| - 1]);
    }
  }

  lemma {:induction false} SumNonNegative(s: seq<real>)
    requires forall i :: 0 <= i < |s| ==> s[i] >= 0.0
    ensures SumReal(s) >= 0.0
    decreases |s|
  {
    if |s| > 0 {
      SumNonNegative(s[..|s| - 1]);
    }
  }

  lemma {:induction false} NonNegativeAverages(s: seq<real>)
    requires |s| > 0
    requires forall i :: 0 <= i < |s| ==> s[i] >= 0.0
    ensures Stats.Mean(s) >= 0.0
    ensures Stats.Median(s) >= 0.0
  {
    SumNonNegative(s);
    var v := SortBy(s, Stats.Id);
    SortedNonNegative(s, v);
    var h := |v| / 2;
    if |v| % 2 == 0 {
      assert v[h - 1] >= 0.0 && v[h] >= 0.0;
    }
  }

  lemma {:induction false} SortedNonNegative(s: seq<real>, v: seq<real>)
    requires multiset(v) == multiset(s)
    requires forall i :: 0 <= i < |s| ==> s[i] >= 0.0
    ensures forall i :: 0 <= i < |v| ==> v[i] >= 0.0
  {
    forall i | 0 <= i < |v| ensures v[i] >= 0.0 {
      assert v[i] in multiset(v);
      assert v[i] in multiset(s);
      var j :| 0 <= j < |s| && s[j] == v[i];
    }
  }
}
