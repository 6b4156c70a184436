/** The winner/loser contingency table of `construct_contingency_table`:
    for each pair of consecutive intervals, every fund with an Alpha in both
    is classified by comparing each Alpha with its interval's median, and
    the transition is tallied against the earlier interval. */
module Contingency {
  import opened Outcomes
  import opened SeqUtil
  import opened Intervals

  /** Winner then winner, loser then loser, winner then loser, loser then winner. */
  datatype Transition = WW | LL | WL | LW

  /** One row of the table: the columns WW, LL, WL, LW. */
  datatype Counts = Counts(ww: nat, ll: nat, wl: nat, lw: nat)

  datatype TableRow = TableRow(interval: int, cell: Counts)

  function Zero(): Counts { Counts(0, 0, 0, 0) }

  function Total(c: Counts): nat { c.ww + c.ll + c.wl + c.lw }

  function Add(a: Counts, b: Counts): Counts
  {
    Counts(a.ww + b.ww, a.ll + b.ll, a.wl + b.wl, a.lw + b.lw)
  }

  /** The column of `c` that counts transition `t`. */
  function Column(c: Counts, t: Transition): nat
  {
    match t
    case WW => c.ww
    case LL => c.ll
    case WL => c.wl
    case LW => c.lw
  }

  function Bump(c: Counts, t: Transition): Counts
  {
    match t
    case WW => c.(ww := c.ww + 1)
    case LL => c.(ll := c.ll + 1)
    case WL => c.(wl := c.wl + 1)
    case LW => c.(lw := c.lw + 1)
  }

  /** Reference reading of a transition: did the fund win (beat the median)
      in the first interval, and in the second? */
  function FromOutcomes(won1: bool, won2: bool): Transition
  {
    match (won1, won2)
    case (true, true) => WW
    case (false, false) => LL
    case (true, false) => WL
    case (false, true) => LW
  }

  /** The if/elif chain of the source. Its branches cover every combination
      of "above the median" and "at or below the median" in the two
      intervals, so each fund lands in exactly the category its two
      outcomes name. */
  function Classify(a1: real, m1: real, a2: real, m2: real): (t: Transition)
    ensures t == FromOutcomes(a1 > m1, a2 > m2)
    ensures t == WW <==> a1 > m1 && a2 > m2
    ensures t == LL <==> a1 <= m1 && a2 <= m2
    ensures t == WL <==> a1 > m1 && a2 <= m2
    ensures t == LW <==> a1 <= m1 && a2 > m2
  {
    if a1 > m1 && a2 > m2 then WW
    else if a1 <= m1 && a2 <= m2 then LL
    else if a1 > m1 && a2 <= m2 then WL
    else LW
  }

  /** The transition of `fund` from interval `i1` to `i2`, when it has an
      Alpha in both. */
  function TransitionOf(rows: seq<AlphaRow>, fund: int, i1: int, i2: int): (r: Option<Transition>)
    ensures r.Some? <==> FirstAlpha(rows, fund, i1).Some? && FirstAlpha(rows, fund, i2).Some?
  {
    var a1 := FirstAlpha(rows, fund, i1);
    var a2 := FirstAlpha(rows, fund, i2);
    if a1.Some? && a2.Some? then
      Some(Classify(a1.value, MedianAt(rows, i1), a2.value, MedianAt(rows, i2)))
    else None
  }

  function PresentInBoth(rows: seq<AlphaRow>, i1: int, i2: int): int -> bool
  {
    (f: int) => TransitionOf(rows, f, i1, i2).Some?
  }

  function Makes(rows: seq<AlphaRow>, i1: int, i2: int, t: Transition): int -> bool
  {
    (f: int) => TransitionOf(rows, f, i1, i2) == Some(t)
  }

  /** The inner loop over `alpha_df['Fund_ID'].unique()` for one pair of
      intervals. Every fund present in both intervals is counted exactly
      once, in the column of its transition; absent funds are skipped. */
  function Tally(rows: seq<AlphaRow>, funds: seq<int>, i1: int, i2: int): (c: Counts)
    ensures Total(c) == CountIf(funds, PresentInBoth(rows, i1, i2))
  {
    if |funds| == 0 then Zero()
    else
      var f := funds[|funds| - 1];
      var prev := Tally(rows, funds[..|funds| - 1], i1, i2);
      match TransitionOf(rows, f, i1, i2)
      case None => prev
      case Some(t) => Bump(prev, t)
  }

  /** Each column of a tally counts exactly the funds making that transition. */
  lemma {:induction false} TallyColumn(rows: seq<AlphaRow>, funds: seq<int>, i1: int, i2: int, t: Transition)
    ensures Column(Tally(rows, funds, i1, i2), t) == CountIf(funds, Makes(rows, i1, i2, t))
    decreases |funds|
  {
    if |funds| > 0 {
      var init, f := funds[..|funds| - 1], funds[|funds| - 1];
      TallyColumn(rows, init, i1, i2, t);
      var prev := Tally(rows, init, i1, i2);
      var tr := TransitionOf(rows, f, i1, i2);
      CountIfLast(funds, Makes(rows, i1, i2, t));
      TallyStep(rows, funds, i1, i2);
      if tr.Some? {
        BumpColumn(prev, tr.value, t);
      }
    }
  }

  /** One more fund bumps the column of its transition, if it has one. */
  lemma TallyStep(rows: seq<AlphaRow>, funds: seq<int>, i1: int, i2: int)
    requires |funds| > 0
    ensures var prev := Tally(rows, funds[..|funds| - 1], i1, i2);
      var tr := TransitionOf(rows, funds[|funds| - 1], i1, i2);
      Tally(rows, funds, i1, i2) == if tr.Some? then Bump(prev, tr.value) else prev
  {
  }

  /** Bumping a transition adds one to its own column and nothing to the others. */
  lemma {:induction false} BumpColumn(c: Counts, u: Transition, t: Transition)
    ensures Column(Bump(c, u), t) == Column(c, t) + (if u == t then 1 else 0)
  {
  }

  /** `c` counts, column by column, the funds of `funds` making each
      transition from `i1` to `i2`, and in total the funds present in both. */
  predicate CountsTransitions(rows: seq<AlphaRow>, funds: seq<int>, i1: int, i2: int, c: Counts)
  {
    && Total(c) == CountIf(funds, PresentInBoth(rows, i1, i2))
    && c.ww == CountIf(funds, Makes(rows, i1, i2, WW))
    && c.ll == CountIf(funds, Makes(rows, i1, i2, LL))
    && c.wl == CountIf(funds, Makes(rows, i1, i2, WL))
    && c.lw == CountIf(funds, Makes(rows, i1, i2, LW))
  }

  lemma {:induction false} TallyCountsTransitions(rows: seq<AlphaRow>, funds: seq<int>, i1: int, i2: int)
    ensures CountsTransitions(rows, funds, i1, i2, Tally(rows, funds, i1, i2))
  {
    TallyColumn(rows, funds, i1, i2, WW);
    TallyColumn(rows, funds, i1, i2, LL);
    TallyColumn(rows, funds, i1, i2, WL);
    TallyColumn(rows, funds, i1, i2, LW);
  }

  /** The sorted distinct intervals of the table. */
  function SortedIntervals(rows: seq<AlphaRow>): seq<int>
  {
    SortedDistinct(IntervalsOf(rows))
  }

  /** `alpha_df['Fund_ID'].unique()`. */
  function UniqueFunds(rows: seq<AlphaRow>): seq<int>
  {
    Distinct(FundsOf(rows))
  }

  /** `alpha_df['Interval'].unique()`: the index of the table. */
  function UniqueIntervals(rows: seq<AlphaRow>): seq<int>
  {
    Distinct(IntervalsOf(rows))
  }

  /** `construct_contingency_table`. The table has one row per distinct
      interval, in order of first appearance. The loop walks the intervals in
      ascending order and increments the row of an interval only while
      comparing it with the next one, so the row of the largest interval
      stays all zeros, and the row of any other interval holds, column by
      column, the number of funds making each transition to the next
      interval; a row's total is the number of funds present in both. */
  method ConstructContingencyTable(rows: seq<AlphaRow>) returns (table: seq<TableRow>)
    ensures |table| == |UniqueIntervals(rows)|
    ensures forall j :: 0 <= j < |table| ==> table[j].interval == UniqueIntervals(rows)[j]
    ensures var s := SortedIntervals(rows);
      forall j :: 0 <= j < |table| && table[j].interval == s[|s| - 1] ==> table[j].cell == Zero()
    ensures var s := SortedIntervals(rows);
      forall j, k :: 0 <= j < |table| && 0 <= k < |s| - 1 && table[j].interval == s[k] ==>
        CountsTransitions(rows, UniqueFunds(rows), s[k], s[k + 1], table[j].cell)
  {
    var index := UniqueIntervals(rows);
    var intervals := SortedIntervals(rows);
    if |intervals| == 0 {
      table := [];
      return;
    }
    forall k | 0 <= k < |intervals| ensures intervals[k] in index {
      assert intervals[k] in IntervalsOf(rows);
    }
    table := FillTable(rows, UniqueFunds(rows), index, intervals);
  }

  /** The loop of `construct_contingency_table`: starting from all-zero
      rows, one per entry of `index`, it adds the tally of each pair of
      consecutive intervals to the row of the earlier one, so the row of the
      last interval stays zero and every other row ends holding its tally. */
  method FillTable(rows: seq<AlphaRow>, funds: seq<int>, index: seq<int>, intervals: seq<int>) returns (table: seq<TableRow>)
    requires StrictlyIncreasing(intervals) && |intervals| > 0
    requires NoDuplicates(index) && forall k :: 0 <= k < |intervals| ==> intervals[k] in index
    ensures Indexed(table, index)
    ensures forall j :: 0 <= j < |table| && table[j].interval == intervals[|intervals| - 1] ==> table[j].cell == Zero()
    ensures forall j, k :: 0 <= j < |table| && 0 <= k < |intervals| - 1 && table[j].interval == intervals[k] ==>
      CountsTransitions(rows, funds, intervals[k], intervals[k + 1], table[j].cell)
  {
    table := seq(|index|, j requires 0 <= j < |index| => TableRow(index[j], Zero()));
    var cells := Tallies(rows, funds, intervals);
    var i := 0;
    while i < |intervals| - 1
      invariant 0 <= i <= |intervals| - 1
      invariant Indexed(table, index)
      invariant Blank(intervals, table, i)
      invariant Filled(intervals, cells, table, i)
    {
      var p := IndexOf(index, intervals[i]);
      FillRow(index, intervals, cells, table, i, p);
      table := table[p := TableRow(intervals[i], Add(table[p].cell, cells[i]))];
      i := i + 1;
    }
    TalliedRows(rows, funds, intervals, cells, table);
  }

  /** The tally of every pair of consecutive intervals, in order. */
  function Tallies(rows: seq<AlphaRow>, funds: seq<int>, intervals: seq<int>): (cs: seq<Counts>)
    requires |intervals| > 0
    ensures |cs| == |intervals| - 1
    ensures forall k :: 0 <= k < |cs| ==> cs[k] == Tally(rows, funds, intervals[k], intervals[k + 1])
  {
    Pairwise(intervals, (a, b) => Tally(rows, funds, a, b))
  }

  /** The rows of the intervals from position `i` on are still all zeros. */
  predicate Blank(intervals: seq<int>, table: seq<TableRow>, i: nat)
  {
    forall j, k :: 0 <= j < |table| && i <= k < |intervals| && table[j].interval == intervals[k] ==>
      table[j].cell == Zero()
  }

  /** The rows of the intervals before position `i` hold their entry of
      `cells`. */
  predicate Filled(intervals: seq<int>, cells: seq<Counts>, table: seq<TableRow>, i: nat)
  {
    forall j, k :: 0 <= j < |table| && 0 <= k < i && k < |cells| && k < |intervals| && table[j].interval == intervals[k] ==>
      table[j].cell == cells[k]
  }

  /** The table's rows are those of `index`, in order. */
  predicate Indexed(table: seq<TableRow>, index: seq<int>)
  {
    |table| == |index| && forall j :: 0 <= j < |table| ==> table[j].interval == index[j]
  }

  /** One pass of the loop: the only row of interval `i` is still zero, and
      adding its tally to it moves the boundary between filled and blank
      rows one interval on. */
  lemma {:induction false} FillRow(index: seq<int>, intervals: seq<int>, cells: seq<Counts>, table: seq<TableRow>, i: nat, p: nat)
    requires StrictlyIncreasing(intervals) && i < |cells| && i < |intervals|
    requires NoDuplicates(index) && Indexed(table, index) && p < |index| && index[p] == intervals[i]
    requires Blank(intervals, table, i) && Filled(intervals, cells, table, i)
    ensures table[p].cell == Zero()
    ensures var t := table[p := TableRow(intervals[i], Add(table[p].cell, cells[i]))];
      Indexed(t, index) && Blank(intervals, t, i + 1) && Filled(intervals, cells, t, i + 1)
  {
    assert table[p].interval == intervals[i];
    var t := table[p := TableRow(intervals[i], cells[i])];
    assert forall k :: 0 <= k < |intervals| && k != i ==> intervals[k] != intervals[i];
    forall j | 0 <= j < |t| && j != p
      ensures t[j] == table[j] && t[j].interval != intervals[i]
    {
    }
  }

  /** Rows holding the tallies of consecutive intervals count their
      transitions. */
  lemma {:induction false} TalliedRows(rows: seq<AlphaRow>, funds: seq<int>, intervals: seq<int>, cells: seq<Counts>, table: seq<TableRow>)
    requires |cells| == |intervals| - 1
    requires forall k :: 0 <= k < |cells| ==> cells[k] == Tally(rows, funds, intervals[k], intervals[k + 1])
    requires Filled(intervals, cells, table, |cells|)
    ensures forall j, k :: 0 <= j < |table| && 0 <= k < |intervals| - 1 && table[j].interval == intervals[k] ==>
      CountsTransitions(rows, funds, intervals[k], intervals[k + 1], table[j].cell)
  {
    forall j, k | 0 <= j < |table| && 0 <= k < |intervals| - 1 && table[j].interval == intervals[k]
      ensures CountsTransitions(rows, funds, intervals[k], intervals[k + 1], table[j].cell)
    {
      TallyCountsTransitions(rows, funds, intervals[k], intervals[k + 1]);
    }
  }
}
