/** `calculate_wins_loses`: every interval-alpha row is flagged as a winner
    (alpha above its interval's median) or a loser (alpha at or below it).
    The result lists the intervals in order of first appearance and, within
    an interval, the rows in their original order. */
module WinsLoses {
  import opened SeqUtil
  import opened Stats
  import opened Grouping
  import opened Intervals

  /** A row of the result: the interval-alpha row with its Wins and Loses flags. */
  datatype Scored = Scored(row: AlphaRow, wins: nat, loses: nat)

  /** `astype(int)` of a boolean. */
  function Flag(b: bool): nat { if b then 1 else 0 }

  function Rows(s: seq<Scored>): (r: seq<AlphaRow>)
    ensures |r| == |s|
    ensures forall j :: 0 <= j < |s| ==> r[j] == s[j].row
  {
    if |s| == 0 then [] else Rows(s[..|s| - 1]) + [s[|s| - 1].row]
  }

  predicate Occurs(rows: seq<AlphaRow>, iv: int)
  {
    exists j :: 0 <= j < |rows| && rows[j].interval == iv
  }

  /** The flags of one row against the median of its interval. */
  predicate WellScored(rows: seq<AlphaRow>, s: Scored)
  {
    && Occurs(rows, s.row.interval)
    && s.wins + s.loses == 1
    && (s.wins == 1 <==> s.row.alpha > MedianAt(rows, s.row.interval))
    && (s.loses == 1 <==> s.row.alpha <= MedianAt(rows, s.row.interval))
  }

  /** Flags every row of one interval against the median m. */
  function ScoreAgainst(at: seq<AlphaRow>, m: real): (r: seq<Scored>)
    ensures |r| == |at|
    ensures forall j :: 0 <= j < |at| ==> r[j].row == at[j]
    ensures forall j :: 0 <= j < |at| ==> r[j].wins + r[j].loses == 1
    ensures forall j :: 0 <= j < |at| ==> (r[j].wins == 1 <==> at[j].alpha > m)
    ensures forall j :: 0 <= j < |at| ==> (r[j].loses == 1 <==> at[j].alpha <= m)
  {
    if |at| == 0 then []
    else
      var x := at[|at| - 1];
      ScoreAgainst(at[..|at| - 1], m) + [Scored(x, Flag(x.alpha > m), Flag(x.alpha <= m))]
  }

  lemma {:induction false} RowsAppend(a: seq<Scored>, b: seq<Scored>)
    ensures Rows(a + b) == Rows(a) + Rows(b)
  {
  }

  predicate AllWellScored(rows: seq<AlphaRow>, s: seq<Scored>)
  {
    forall j :: 0 <= j < |s| ==> WellScored(rows, s[j])
  }

  lemma {:induction false} AllWellScoredAppend(rows: seq<AlphaRow>, a: seq<Scored>, b: seq<Scored>)
    requires AllWellScored(rows, a) && AllWellScored(rows, b)
    ensures AllWellScored(rows, a + b)
  {
    forall j | 0 <= j < |a + b| ensures WellScored(rows, (a + b)[j]) {
      if j < |a| {
        assert (a + b)[j] == a[j];
      } else {
        assert (a + b)[j] == b[j - |a|];
      }
    }
  }

  lemma {:induction false} RowsOfScore(at: seq<AlphaRow>, m: real)
    ensures Rows(ScoreAgainst(at, m)) == at
  {
  }

  /** One interval's block is scored against that interval's own median. */
  lemma {:induction false} BlockWellScored(rows: seq<AlphaRow>, iv: int)
    requires Occurs(rows, iv)
    ensures AllWellScored(rows, ScoreAgainst(RowsAt(rows, iv), MedianAt(rows, iv)))
  {
    var at := RowsAt(rows, iv);
    var block := ScoreAgainst(at, MedianAt(rows, iv));
    forall j | 0 <= j < |block| ensures WellScored(rows, block[j]) {
      assert at[j] in at;
      assert block[j].row.interval == iv;
    }
  }

  /** The loop of the source over the intervals `ivs`. */
  function ScoredBlocks(rows: seq<AlphaRow>, ivs: seq<int>): (r: seq<Scored>)
    requires forall i :: 0 <= i < |ivs| ==> Occurs(rows, ivs[i])
    ensures Rows(r) == Parts(rows, ivs, IntervalOf)
    ensures AllWellScored(rows, r)
  {
    if |ivs| == 0 then []
    else
      var iv := ivs[|ivs| - 1];
      assert Occurs(rows, iv);
      var init := ivs[..|ivs| - 1];
      assert forall i :: 0 <= i < |init| ==> init[i] == ivs[i];
      var prefix := ScoredBlocks(rows, init);
      var block := ScoreAgainst(RowsAt(rows, iv), MedianAt(rows, iv));
      BlockWellScored(rows, iv);
      RowsAppend(prefix, block);
      RowsOfScore(RowsAt(rows, iv), MedianAt(rows, iv));
      AllWellScoredAppend(rows, prefix, block);
      prefix + block
  }

  /** `calculate_wins_loses`: a rearrangement of the table in which every row
      carries exactly one of the two flags, Wins exactly when its alpha is
      above its interval's median and Loses exactly when it is not. */
  function CalculateWinsLoses(rows: seq<AlphaRow>): (r: seq<Scored>)
    ensures multiset(Rows(r)) == multiset(rows)
    ensures forall j :: 0 <= j < |r| ==> WellScored(rows, r[j])
  {
    var ivs := Distinct(IntervalsOf(rows));
    assert forall i :: 0 <= i < |ivs| ==> Occurs(rows, ivs[i]) by {
      forall i | 0 <= i < |ivs| ensures Occurs(rows, ivs[i]) {
        var k :| 0 <= k < |IntervalsOf(rows)| && IntervalsOf(rows)[k] == ivs[i];
        assert rows[k].interval == ivs[i];
      }
    }
    assert forall j :: 0 <= j < |rows| ==> IntervalOf(rows[j]) in ivs by {
      forall j | 0 <= j < |rows| ensures IntervalOf(rows[j]) in ivs {
        assert IntervalsOf(rows)[j] == rows[j].interval;
      }
    }
    PartsPermute(rows, ivs, IntervalOf);
    ScoredBlocks(rows, ivs)
  }

  function IsWinner(s: Scored): bool { s.wins == 1 }

  /** Within one interval the winners are the alphas above the median. */
  lemma {:induction false} WinnersAreAbove(at: seq<AlphaRow>, m: real)
    ensures CountIf(ScoreAgainst(at, m), IsWinner) == CountIf(Alphas(at), Above(m))
    decreases |at|
  {
    if |at| > 0 {
      var init := at[..|at| - 1];
      WinnersAreAbove(init, m);
      assert ScoreAgainst(at, m)[..|at| - 1] == ScoreAgainst(init, m);
      assert Alphas(at)[..|at| - 1] == Alphas(init);
    }
  }

  /** At most half of an interval's funds are winners. */
  lemma {:induction false} WinnersAtMostHalf(rows: seq<AlphaRow>, iv: int)
    requires Occurs(rows, iv)
    ensures var at := RowsAt(rows, iv);
      CountIf(ScoreAgainst(at, MedianAt(rows, iv)), IsWinner) <= |at| / 2
  {
    var at := RowsAt(rows, iv);
    var j :| 0 <= j < |rows| && rows[j].interval == iv;
    assert rows[j] in at;
    WinnersAreAbove(at, MedianAt(rows, iv));
    MedianSplitsInHalf(Alphas(at));
  }
}
