/** The expanding-window backtest of `train_and_predict` and the alphas
    `calculate_alpha_from_results` derives from its output. From the
    prediction start date on, every 12 months the model is trained on all
    rows from the training start up to the current date and predicts the
    next 12 months. The random forest itself is a parameter: any function
    from a training set and one feature vector to a prediction. */
module Backtest {
  import opened Outcomes
  import opened SeqUtil
  import opened Sorting
  import opened Grouping
  import opened Calendar
  import opened Intervals
  import Stats

  /** One row of the merged frame as the backtest reads it: Fund_ID,
      Date_fund, Rolling_Performance, rf and the five factor columns. */
  datatype Obs = Obs(fund: int, date: ValidDate, performance: real, rf: real, factors: seq<real>)

  /** `Rolling_Performance - rf`, the quantity predicted. */
  function Target(o: Obs): real { o.performance - o.rf }

  function ObsOrder(o: Obs): real { DateKey(o.date) }

  function ObsFund(o: Obs): int { o.fund }

  /** The step of the walk: `pd.DateOffset(months=12)`. */
  const StepMonths: nat := 12

  /** `train_start <= Date_fund < current_date`. */
  function InTrain(trainStart: Date, current: Date): Obs -> bool
  {
    (o: Obs) => AtOrBefore(trainStart, o.date) && Before(o.date, current)
  }

  /** `current_date <= Date_fund < current_date + 12 months`. */
  function InTest(current: ValidDate): Obs -> bool
  {
    (o: Obs) => AtOrBefore(current, o.date) && Before(o.date, AddMonths(current, StepMonths))
  }

  /** One pass of the loop that fits and predicts. */
  datatype Step = Step(current: ValidDate, train: seq<Obs>, test: seq<Obs>)

  /** `s` is the step the loop takes at its current date: the training and
      test sets are the rows of `obs` inside the two windows, in row order,
      and neither is empty. */
  predicate StepOf(obs: seq<Obs>, trainStart: Date, s: Step)
  {
    && s.train == Filter(obs, InTrain(trainStart, s.current))
    && s.test == Filter(obs, InTest(s.current))
    && |s.train| > 0 && |s.test| > 0
  }

  /** Both windows at date `d` hold rows, so the loop fits and predicts
      there instead of skipping to the next date. */
  predicate Productive(obs: seq<Obs>, trainStart: Date, d: ValidDate)
  {
    |Filter(obs, InTrain(trainStart, d))| > 0 && |Filter(obs, InTest(d))| > 0
  }

  /** The date the loop holds after `n` passes from `d`: `d` advanced by
      `DateOffset(months=12)` n times over (the day is clamped at every
      pass, so this is not `d` plus 12·n months in general). */
  function Advance(d: ValidDate, n: nat): ValidDate
    decreases n
  {
    if n == 0 then d else Advance(AddMonths(d, StepMonths), n - 1)
  }

  /** The loop, started at `from`, holds date `d` after some number of passes. */
  ghost predicate Reached(from: ValidDate, d: ValidDate)
  {
    exists n: nat :: d == Advance(from, n)
  }

  /** The `while current_date <= end_date` loop from `current` on: a step
      for each date whose windows are both non-empty, and a skip (`continue`)
      for the others; the date advances by 12 months on both paths. The
      steps are exactly the productive dates among `current`, `current` + 12
      months, ... up to `end`, in order. */
  function Walk(obs: seq<Obs>, trainStart: Date, current: ValidDate, end: ValidDate): (steps: seq<Step>)
    ensures forall i :: 0 <= i < |steps| ==> StepOf(obs, trainStart, steps[i])
    ensures forall i :: 0 <= i < |steps| ==> AtOrBefore(current, steps[i].current) && AtOrBefore(steps[i].current, end)
    ensures forall i :: 0 <= i < |steps| ==> Reached(current, steps[i].current)
    ensures forall n: nat :: AtOrBefore(Advance(current, n), end) && Productive(obs, trainStart, Advance(current, n)) ==>
      exists i :: 0 <= i < |steps| && steps[i].current == Advance(current, n)
    ensures forall i, k :: 0 <= i < k < |steps| ==> AtOrBefore(AddMonths(steps[i].current, StepMonths), steps[k].current)
    ensures AtOrBefore(current, end) ==> |steps| * StepMonths <= MonthIndex(end) - MonthIndex(current) + StepMonths
    ensures !AtOrBefore(current, end) ==> steps == []
    decreases MonthIndex(end) - MonthIndex(current) + StepMonths
  {
    if !AtOrBefore(current, end) then
      PastEnd(current, end);
      []
    else
      MonthIndexMonotone(current, end);
      var next := AddMonths(current, StepMonths);
      AddMonthsLater(current, StepMonths);
      var rest := Walk(obs, trainStart, next, end);
      var train := Filter(obs, InTrain(trainStart, current));
      var test := Filter(obs, InTest(current));
      WalkRestLater(current, next, rest);
      if |train| < 1 || |test| < 1 then
        WalkVisits(obs, trainStart, current, next, end, false, rest, rest);
        rest
      else
        var first := Step(current, train, test);
        var steps := [first] + rest;
        assert forall k :: 0 < k < |steps| ==> steps[k] == rest[k - 1];
        WalkTakePlaced(obs, trainStart, current, end, first, rest);
        WalkTakeOrdered(current, next, first, rest);
        WalkVisits(obs, trainStart, current, next, end, true, rest, steps);
        steps
  }

  /** A productive pass puts its own step, at `current`, in front of the
      later steps: every step is still the loop's own and within range. */
  lemma {:induction false} WalkTakePlaced(obs: seq<Obs>, trainStart: Date, current: ValidDate, end: ValidDate,
                                          first: Step, rest: seq<Step>)
    requires StepOf(obs, trainStart, first) && first.current == current && AtOrBefore(current, end)
    requires forall i :: 0 <= i < |rest| ==> StepOf(obs, trainStart, rest[i])
    requires forall i :: 0 <= i < |rest| ==> AtOrBefore(current, rest[i].current) && AtOrBefore(rest[i].current, end)
    ensures var steps := [first] + rest;
      forall i :: 0 <= i < |steps| ==> StepOf(obs, trainStart, steps[i])
    ensures var steps := [first] + rest;
      forall i :: 0 <= i < |steps| ==> AtOrBefore(current, steps[i].current) && AtOrBefore(steps[i].current, end)
  {
    var steps := [first] + rest;
    forall i | 0 <= i < |steps|
      ensures StepOf(obs, trainStart, steps[i])
      ensures AtOrBefore(current, steps[i].current) && AtOrBefore(steps[i].current, end)
    {
      if i > 0 {
        assert steps[i] == rest[i - 1];
      }
    }
  }

  /** A productive pass keeps the steps at least 12 months apart: the later
      steps all start at or after `current` + 12 months. */
  lemma {:induction false} WalkTakeOrdered(current: ValidDate, next: ValidDate, first: Step, rest: seq<Step>)
    requires first.current == current && next == AddMonths(current, StepMonths)
    requires forall i :: 0 <= i < |rest| ==> AtOrBefore(next, rest[i].current)
    requires forall i, k :: 0 <= i < k < |rest| ==> AtOrBefore(AddMonths(rest[i].current, StepMonths), rest[k].current)
    ensures var steps := [first] + rest;
      forall i, k :: 0 <= i < k < |steps| ==> AtOrBefore(AddMonths(steps[i].current, StepMonths), steps[k].current)
  {
    var steps := [first] + rest;
    forall i, k | 0 <= i < k < |steps|
      ensures AtOrBefore(AddMonths(steps[i].current, StepMonths), steps[k].current)
    {
      assert steps[k] == rest[k - 1];
      if i > 0 {
        assert steps[i] == rest[i - 1];
      }
    }
  }

  /** The loop only moves forward: every date it holds from `d` on is at or
      after `d`. */
  lemma {:induction false} AdvanceLater(d: ValidDate, n: nat)
    ensures AtOrBefore(d, Advance(d, n))
    decreases n
  {
    if n > 0 {
      var next := AddMonths(d, StepMonths);
      AdvanceLater(next, n - 1);
      AddMonthsLater(d, StepMonths);
      BeforeTransitive(d, next, Advance(next, n - 1));
    }
  }

  /** Once the loop has passed `end`, none of its later dates is at or before `end`. */
  lemma {:induction false} PastEnd(current: ValidDate, end: ValidDate)
    requires !AtOrBefore(current, end)
    ensures forall n: nat :: !AtOrBefore(Advance(current, n), end)
  {
    forall n: nat ensures !AtOrBefore(Advance(current, n), end) {
      AdvanceLater(current, n);
      BeforeTransitive(end, current, Advance(current, n));
    }
  }

  /** One pass of the loop: the steps from `current` are those from 12 months
      later, preceded by the step at `current` when it is productive. */
  lemma {:induction false} WalkVisits(obs: seq<Obs>, trainStart: Date, current: ValidDate, next: ValidDate, end: ValidDate,
                                      took: bool, rest: seq<Step>, steps: seq<Step>)
    requires next == AddMonths(current, StepMonths)
    requires took == Productive(obs, trainStart, current)
    requires took ==> |steps| == |rest| + 1 && steps[0].current == current && forall k :: 0 < k < |steps| ==> steps[k] == rest[k - 1]
    requires !took ==> steps == rest
    requires forall i :: 0 <= i < |rest| ==> Reached(next, rest[i].current)
    requires forall n: nat :: AtOrBefore(Advance(next, n), end) && Productive(obs, trainStart, Advance(next, n)) ==>
      exists i :: 0 <= i < |rest| && rest[i].current == Advance(next, n)
    ensures forall i :: 0 <= i < |steps| ==> Reached(current, steps[i].current)
    ensures forall n: nat :: AtOrBefore(Advance(current, n), end) && Productive(obs, trainStart, Advance(current, n)) ==>
      exists i :: 0 <= i < |steps| && steps[i].current == Advance(current, n)
  {
    var off := if took then 1 else 0;
    forall i | 0 <= i < |steps| ensures Reached(current, steps[i].current) {
      if took && i == 0 {
        assert steps[i].current == Advance(current, 0);
      } else {
        assert steps[i] == rest[i - off];
        assert Reached(next, rest[i - off].current);
        var n: nat :| rest[i - off].current == Advance(next, n);
        var w: nat := n + 1;
        assert Advance(current, w) == Advance(next, n);
        assert steps[i].current == Advance(current, w);
      }
    }
    forall n: nat | AtOrBefore(Advance(current, n), end) && Productive(obs, trainStart, Advance(current, n))
      ensures exists i :: 0 <= i < |steps| && steps[i].current == Advance(current, n)
    {
      if n == 0 {
        assert Advance(current, 0) == current;
        assert took;
        assert steps[0].current == Advance(current, n);
      } else {
        assert Advance(current, n) == Advance(next, n - 1);
        var i :| 0 <= i < |rest| && rest[i].current == Advance(next, n - 1);
        assert steps[i + off] == rest[i];
      }
    }
  }

  lemma {:induction false} WalkRestLater(current: ValidDate, next: ValidDate, rest: seq<Step>)
    requires Before(current, next)
    requires forall i :: 0 <= i < |rest| ==> AtOrBefore(next, rest[i].current)
    ensures forall i :: 0 <= i < |rest| ==> AtOrBefore(current, rest[i].current)
  {
    forall i | 0 <= i < |rest| ensures AtOrBefore(current, rest[i].current) {
      BeforeTransitive(current, next, rest[i].current);
    }
  }

  /** The dates of the steps strictly increase. */
  lemma {:induction false} WalkIncreasing(obs: seq<Obs>, trainStart: Date, current: ValidDate, end: ValidDate, i: nat, k: nat)
    requires i < k < |Walk(obs, trainStart, current, end)|
    ensures var steps := Walk(obs, trainStart, current, end);
      Before(steps[i].current, steps[k].current)
  {
    var steps := Walk(obs, trainStart, current, end);
    AddMonthsLater(steps[i].current, StepMonths);
    BeforeTransitive(steps[i].current, AddMonths(steps[i].current, StepMonths), steps[k].current);
  }

  /** Within a step, every training row lies in [train_start, current), every
      test row in [current, current + 12 months), so the two sets share no
      row and every training date precedes every test date. */
  lemma {:induction false} StepSeparates(obs: seq<Obs>, trainStart: Date, s: Step)
    requires StepOf(obs, trainStart, s)
    ensures forall o :: o in s.train ==> AtOrBefore(trainStart, o.date) && Before(o.date, s.current)
    ensures forall o :: o in s.test ==> AtOrBefore(s.current, o.date) && Before(o.date, AddMonths(s.current, StepMonths))
    ensures forall a, b :: a in s.train && b in s.test ==> Before(a.date, b.date)
    ensures forall o :: o in s.train ==> o !in s.test
  {
    forall a, b | a in s.train && b in s.test ensures Before(a.date, b.date) {
      BeforeTransitive(a.date, s.current, b.date);
    }
  }

  /** The window expands: once the walk has passed the training start, the
      rows one step predicts belong to the training set of every later step. */
  lemma {:induction false} Expanding(obs: seq<Obs>, trainStart: Date, current: ValidDate, end: ValidDate, i: nat, k: nat)
    requires i < k < |Walk(obs, trainStart, current, end)|
    requires AtOrBefore(trainStart, Walk(obs, trainStart, current, end)[i].current)
    ensures var steps := Walk(obs, trainStart, current, end);
      forall o :: o in steps[i].test ==> o in steps[k].train
  {
    var steps := Walk(obs, trainStart, current, end);
    var si, sk := steps[i], steps[k];
    StepSeparates(obs, trainStart, si);
    forall o | o in si.test ensures o in sk.train {
      BeforeTransitive(trainStart, si.current, o.date);
      BeforeTransitive(o.date, AddMonths(si.current, StepMonths), sk.current);
      assert InTrain(trainStart, sk.current)(o);
    }
  }

  /** The input to the random forest: the encoded Fund_ID and the factors. */
  datatype Features = Features(code: int, factors: seq<real>)

  datatype Labeled = Labeled(x: Features, y: real)

  /** `.astype('category').cat.codes` against a list of categories: the
      position of the value among them, or -1 when it is not one of them. */
  function CodeOf(categories: seq<int>, fund: int): (c: int)
    ensures -1 <= c < |categories|
    ensures c >= 0 <==> fund in categories
    ensures c >= 0 ==> categories[c] == fund
  {
    if fund in categories then IndexOf(categories, fund) else -1
  }

  /** Codes are consistent and tell funds apart: against one list of distinct
      categories, equal funds get equal codes and different listed funds get
      different codes. */
  lemma {:induction false} CodesInjective(categories: seq<int>, f: int, g: int)
    requires StrictlyIncreasing(categories)
    requires f in categories
    ensures CodeOf(categories, f) == CodeOf(categories, g) <==> f == g
  {
  }

  /** `x.astype('category').cat.codes` as pandas computes it: the categories
      are the distinct values of `x` itself, ascending. */
  function CategoryCodes(funds: seq<int>): (codes: seq<int>)
    ensures |codes| == |funds|
    ensures forall j :: 0 <= j < |funds| ==> 0 <= codes[j] < |SortedDistinct(funds)|
    ensures forall j :: 0 <= j < |funds| ==> SortedDistinct(funds)[codes[j]] == funds[j]
  {
    var categories := SortedDistinct(funds);
    seq(|funds|, (j: int) requires 0 <= j < |funds| => CodeOf(categories, funds[j]))
  }

  /** Encoding the training and test frames separately, as the source does,
      gives one fund two codes: with funds 1 and 2 in training and only
      fund 2 in the test window, fund 2 is code 1 to the fitted model and
      code 0 when it is asked to predict. */
  lemma {:induction false} SeparateCodesDisagree()
    ensures CategoryCodes([1, 2])[1] == 1
    ensures CategoryCodes([2])[0] == 0
  {
    SmallCategories();
  }

  /** The categories of the two frames of the example. */
  lemma {:induction false} SmallCategories()
    ensures SortedDistinct([1, 2]) == [1, 2]
    ensures SortedDistinct([2]) == [2]
  {
    assert SortedDistinct([1, 2]) == [1, 2] by {
      assert [1, 2][..1] == [1];
      assert [1][..0] == [];
      assert SortedDistinct([1]) == InsertUnique(1, []) == [1];
      assert InsertUnique(2, [1]) == [1] + InsertUnique(2, []);
    }
    assert SortedDistinct([2]) == [2] by {
      assert [2][..0] == [];
      assert SortedDistinct([2]) == InsertUnique(2, []);
    }
  }

  function FundIds(obs: seq<Obs>): seq<int>
  {
    Keys(obs, ObsFund)
  }

  /** One row's features, with the Fund_ID encoded against `categories`. */
  function FeaturesOf(categories: seq<int>, o: Obs): Features
  {
    Features(CodeOf(categories, o.fund), o.factors)
  }

  function Samples(categories: seq<int>, train: seq<Obs>): (r: seq<Labeled>)
    ensures |r| == |train|
    ensures forall j :: 0 <= j < |train| ==> r[j] == Labeled(FeaturesOf(categories, train[j]), Target(train[j]))
  {
    if |train| == 0 then []
    else Samples(categories, train[..|train| - 1]) + [Labeled(FeaturesOf(categories, train[|train| - 1]), Target(train[|train| - 1]))]
  }

  /** A fitted-and-applied model: from the training samples and one feature
      vector to a prediction. */
  type Predictor = (seq<Labeled>, Features) -> real

  /** One entry of `results`: Fund_ID, Date_fund, Actual, Predicted. */
  datatype ResultRow = ResultRow(fund: int, date: ValidDate, actual: real, predicted: real)

  /** How Fund_ID is encoded for the random forest: each step's training and
      test frames against their own distinct funds, as `train_and_predict`
      does, or both against one list of categories. */
  datatype Encoding = PerWindow | Shared(categories: seq<int>)

  /** The categories the training frame of `s` is encoded against. */
  function TrainCategories(e: Encoding, s: Step): seq<int>
  {
    match e
    case PerWindow => SortedDistinct(FundIds(s.train))
    case Shared(c) => c
  }

  /** The categories the test frame of `s` is encoded against. */
  function TestCategories(e: Encoding, s: Step): seq<int>
  {
    match e
    case PerWindow => SortedDistinct(FundIds(s.test))
    case Shared(c) => c
  }

  /** `row` is what the loop appends for test row `j` of step `s`: the row's
      Fund_ID, Date_fund and actual excess return, and the prediction of the
      model fitted on the step's encoded training samples for the row's
      encoded features. */
  predicate Reports(e: Encoding, s: Step, predict: Predictor, j: nat, row: ResultRow)
    requires j < |s.test|
  {
    row == ResultRow(s.test[j].fund, s.test[j].date, Target(s.test[j]),
                     predict(Samples(TrainCategories(e, s), s.train), FeaturesOf(TestCategories(e, s), s.test[j])))
  }

  /** The rows a step appends to `results`, one per test row, in order. */
  function StepResults(e: Encoding, s: Step, predict: Predictor): (r: seq<ResultRow>)
    ensures |r| == |s.test|
    ensures forall j :: 0 <= j < |s.test| ==> Reports(e, s, predict, j, r[j])
  {
    var train := Samples(TrainCategories(e, s), s.train);
    var test := TestCategories(e, s);
    seq(|s.test|, (j: int) requires 0 <= j < |s.test| =>
      ResultRow(s.test[j].fund, s.test[j].date, Target(s.test[j]), predict(train, FeaturesOf(test, s.test[j]))))
  }

  /** The rows of every step, one block per step. */
  function Blocks(e: Encoding, steps: seq<Step>, predict: Predictor): (bs: seq<seq<ResultRow>>)
    ensures |bs| == |steps|
    ensures forall i :: 0 <= i < |steps| ==> bs[i] == StepResults(e, steps[i], predict)
  {
    seq(|steps|, (i: int) requires 0 <= i < |steps| => StepResults(e, steps[i], predict))
  }

  /** `results` after the loop: the blocks of the steps, one after the other. */
  function AllResults(e: Encoding, steps: seq<Step>, predict: Predictor): seq<ResultRow>
  {
    Concat(Blocks(e, steps, predict))
  }

  /** The size of every step's test frame. */
  function TestSizes(steps: seq<Step>): (ns: seq<nat>)
    ensures |ns| == |steps|
    ensures forall i :: 0 <= i < |steps| ==> ns[i] == |steps[i].test|
  {
    seq(|steps|, (i: int) requires 0 <= i < |steps| => |steps[i].test|)
  }

  /** The number of test rows over all steps. */
  function TestRows(steps: seq<Step>): nat
  {
    SumNat(TestSizes(steps))
  }

  /** In `r`, the rows of step `i` come as one block, right after the rows
      of the steps before it. */
  predicate Appended(r: seq<ResultRow>, e: Encoding, steps: seq<Step>, predict: Predictor, i: nat)
    requires i < |steps|
  {
    BlockAt(r, TestRows(steps[..i]), StepResults(e, steps[i], predict))
  }

  lemma {:induction false} AllResultsSize(e: Encoding, steps: seq<Step>, predict: Predictor)
    ensures |AllResults(e, steps, predict)| == TestRows(steps)
  {
    var bs := Blocks(e, steps, predict);
    ConcatLength(bs);
    assert Lengths(bs) == TestSizes(steps);
  }

  /** The results of step `i` sit, in one block, right after those of all
      earlier steps. */
  lemma {:induction false} AllResultsSlice(e: Encoding, steps: seq<Step>, predict: Predictor, i: nat)
    requires i < |steps|
    ensures Appended(AllResults(e, steps, predict), e, steps, predict, i)
  {
    var bs := Blocks(e, steps, predict);
    BlocksPrefix(e, steps, predict, i);
    AllResultsSize(e, steps[..i], predict);
    ConcatBlockAt(bs, i, TestRows(steps[..i]), StepResults(e, steps[i], predict));
  }

  lemma {:induction false} BlocksPrefix(e: Encoding, steps: seq<Step>, predict: Predictor, i: nat)
    requires i <= |steps|
    ensures Blocks(e, steps, predict)[..i] == Blocks(e, steps[..i], predict)
  {
    var bs, cs := Blocks(e, steps, predict), Blocks(e, steps[..i], predict);
    assert forall j :: 0 <= j < i ==> bs[..i][j] == bs[j] == cs[j];
  }

  /** Step by step, the results are the rows each step appends. */
  lemma {:induction false} AllResultsRows(e: Encoding, steps: seq<Step>, predict: Predictor)
    ensures |AllResults(e, steps, predict)| == TestRows(steps)
    ensures forall i :: 0 <= i < |steps| ==> Appended(AllResults(e, steps, predict), e, steps, predict, i)
  {
    AllResultsSize(e, steps, predict);
    forall i | 0 <= i < |steps|
      ensures Appended(AllResults(e, steps, predict), e, steps, predict, i)
    {
      AllResultsSlice(e, steps, predict, i);
    }
  }

  /** Steps never have empty test sets, so there are results exactly when
      some step ran. */
  lemma {:induction false} NoResultsWithoutSteps(steps: seq<Step>)
    requires forall i :: 0 <= i < |steps| ==> |steps[i].test| > 0
    ensures TestRows(steps) == 0 <==> |steps| == 0
  {
    SumNatPositive(TestSizes(steps));
  }

  /** `r` is what the loop collects over `steps`: one row per test row,
      none exactly when no step ran, and step after step the block of rows
      that step reports. */
  predicate Collected(r: seq<ResultRow>, e: Encoding, steps: seq<Step>, predict: Predictor)
  {
    && |r| == TestRows(steps)
    && (|r| == 0 <==> |steps| == 0)
    && forall i :: 0 <= i < |steps| ==> Appended(r, e, steps, predict, i)
  }

  /** The results of the walk are what the loop collects over its steps. */
  lemma {:induction false} WalkCollected(e: Encoding, sorted: seq<Obs>, trainStart: ValidDate, start: ValidDate, end: ValidDate, predict: Predictor)
    ensures var steps := Walk(sorted, trainStart, start, end);
      Collected(AllResults(e, steps, predict), e, steps, predict)
  {
    var steps := Walk(sorted, trainStart, start, end);
    forall i | 0 <= i < |steps| ensures |steps[i].test| > 0 {
      assert StepOf(sorted, trainStart, steps[i]);
    }
    AllResultsRows(e, steps, predict);
    NoResultsWithoutSteps(steps);
  }

  /** `train_and_predict`: the frame is sorted by date, the walk runs from
      `start` to `end`, and every step's predictions are appended. As in the
      source, Fund_ID is encoded separately in each step's training and test
      frames (`PerWindowCodesDisagree` shows what that does to a fund's
      code). The results hold, step after step, one row per test row: its
      fund, date and actual excess return, and the prediction of the model
      fitted on that step's training samples; there are none exactly when no
      step ran. */
  function TrainAndPredict(obs: seq<Obs>, trainStart: ValidDate, start: ValidDate, end: ValidDate, predict: Predictor): (r: seq<ResultRow>)
    ensures Collected(r, PerWindow, Walk(SortBy(obs, ObsOrder), trainStart, start, end), predict)
  {
    var steps := Walk(SortBy(obs, ObsOrder), trainStart, start, end);
    WalkCollected(PerWindow, SortBy(obs, ObsOrder), trainStart, start, end, predict);
    AllResults(PerWindow, steps, predict)
  }

  /** The encoding `train_and_predict` evidently intends: Fund_ID encoded
      against the funds of the whole frame in every step. The results have
      the same shape as `TrainAndPredict`'s, and within every step a fund's
      training rows and test rows reach the model with one and the same
      code. */
  function TrainAndPredictShared(obs: seq<Obs>, trainStart: ValidDate, start: ValidDate, end: ValidDate, predict: Predictor): (r: seq<ResultRow>)
    ensures var steps := Walk(SortBy(obs, ObsOrder), trainStart, start, end);
      var e := Shared(SortedDistinct(FundIds(obs)));
      && Collected(r, e, steps, predict)
      && forall i :: 0 <= i < |steps| ==> CodesAgree(e, steps[i])
  {
    var sorted := SortBy(obs, ObsOrder);
    var steps := Walk(sorted, trainStart, start, end);
    var e := Shared(SortedDistinct(FundIds(obs)));
    WalkCollected(e, sorted, trainStart, start, end, predict);
    SharedCodesAgree(obs, sorted, trainStart, start, end);
    AllResults(e, steps, predict)
  }

  /** Within step `s`, a fund's training rows and its test rows reach the
      model with the same code. */
  predicate CodesAgree(e: Encoding, s: Step)
  {
    forall a, b :: a in s.train && b in s.test && a.fund == b.fund ==>
      FeaturesOf(TrainCategories(e, s), a).code == FeaturesOf(TestCategories(e, s), b).code
  }

  /** With whole-frame categories, a training row and a test row of the same
      fund get the same code in every step of the walk. */
  lemma {:induction false} SharedCodesAgree(obs: seq<Obs>, sorted: seq<Obs>, trainStart: ValidDate, start: ValidDate, end: ValidDate)
    requires multiset(sorted) == multiset(obs)
    ensures var steps := Walk(sorted, trainStart, start, end);
      forall i :: 0 <= i < |steps| ==> CodesAgree(Shared(SortedDistinct(FundIds(obs))), steps[i])
  {
    var steps := Walk(sorted, trainStart, start, end);
    var e := Shared(SortedDistinct(FundIds(obs)));
    forall i | 0 <= i < |steps|
      ensures CodesAgree(e, steps[i])
    {
      forall a, b | a in steps[i].train && b in steps[i].test && a.fund == b.fund
        ensures FeaturesOf(TrainCategories(e, steps[i]), a).code == FeaturesOf(TestCategories(e, steps[i]), b).code
      {
        assert a in sorted && b in sorted;
        assert a in multiset(sorted) && b in multiset(sorted);
        CodesAgreeAcrossWindows(obs, a, b);
      }
    }
  }

  /** A training row and a test row of the same fund reach the model with the
      same code when the categories are the funds of the whole frame,
      whatever the two windows hold. */
  lemma {:induction false} CodesAgreeAcrossWindows(obs: seq<Obs>, a: Obs, b: Obs)
    requires a in obs && b in obs && a.fund == b.fund
    ensures var categories := SortedDistinct(FundIds(obs));
      FeaturesOf(categories, a).code == FeaturesOf(categories, b).code >= 0
  {
    var k :| 0 <= k < |obs| && obs[k] == a;
    assert FundIds(obs)[k] == a.fund;
  }

  /** The encoding of `train_and_predict` as written: in a step whose training
      frame holds funds 1 and 2 and whose test frame holds only fund 2, the
      model is fitted with fund 2 as code 1 but asked to predict fund 2 as
      code 0, the code fund 1 had in training. */
  lemma {:induction false} PerWindowCodesDisagree(s: Step)
    requires FundIds(s.train) == [1, 2] && FundIds(s.test) == [2]
    ensures s.train[1].fund == s.test[0].fund == 2 && s.train[0].fund == 1
    ensures FeaturesOf(TrainCategories(PerWindow, s), s.train[1]).code == 1
    ensures FeaturesOf(TestCategories(PerWindow, s), s.test[0]).code == 0
    ensures FeaturesOf(TrainCategories(PerWindow, s), s.train[0]).code == 0
  {
    SmallCategories();
    assert s.train[0].fund == FundIds(s.train)[0];
    assert s.train[1].fund == FundIds(s.train)[1];
    assert s.test[0].fund == FundIds(s.test)[0];
  }

  function ResultFund(r: ResultRow): int { r.fund }

  function ResultOrder(r: ResultRow): real { DateKey(r.date) }

  function Residuals(w: seq<ResultRow>): (e: seq<real>)
    ensures |e| == |w|
    ensures forall j :: 0 <= j < |w| ==> e[j] == w[j].actual - w[j].predicted
  {
    if |w| == 0 then [] else Residuals(w[..|w| - 1]) + [w[|w| - 1].actual - w[|w| - 1].predicted]
  }

  function Actuals(w: seq<ResultRow>): seq<real>
  {
    if |w| == 0 then [] else Actuals(w[..|w| - 1]) + [w[|w| - 1].actual]
  }

  function Predictions(w: seq<ResultRow>): seq<real>
  {
    if |w| == 0 then [] else Predictions(w[..|w| - 1]) + [w[|w| - 1].predicted]
  }

  /** `interval_df['Residual'].mean()`; windows handed to it are never empty. */
  function MeanResidual(w: seq<ResultRow>): real
  {
    if |w| == 0 then 0.0 else Stats.Mean(Residuals(w))
  }

  lemma {:induction false} ResidualSum(w: seq<ResultRow>)
    ensures SumReal(Residuals(w)) == SumReal(Actuals(w)) - SumReal(Predictions(w))
    decreases |w|
  {
    if |w| > 0 {
      ResidualSum(w[..|w| - 1]);
    }
  }

  /** A window's alpha is what the model left unexplained, spread over the
      window: total actual minus total predicted excess return, divided by
      the number of months. */
  lemma {:induction false} MeanResidualIsUnexplained(w: seq<ResultRow>)
    requires |w| > 0
    ensures MeanResidual(w) == (SumReal(Actuals(w)) - SumReal(Predictions(w))) / (|w| as real)
  {
    var e := Residuals(w);
    ResidualSum(w);
    var d := SumReal(Actuals(w)) - SumReal(Predictions(w));
    MeanOfTotal(e, d, |w|);
    assert MeanResidual(w) == Stats.Mean(e);
  }

  lemma {:induction false} MeanOfTotal(e: seq<real>, d: real, n: nat)
    requires |e| == n > 0 && SumReal(e) == d
    ensures Stats.Mean(e) == d / (n as real)
  {
  }

  /** What `calculate_alpha_from_results` can raise: a KeyError when
      `results` is empty (the frame built from no rows has no `Fund_ID` or
      `Date_fund` column to sort by), and the ValueError of `range` with a
      zero step. */
  datatype AlphaError = MissingColumns | WindowFailure(cause: WindowError)

  /** `calculate_alpha_from_results`: results sorted by fund and date, then
      the windowing of `calculate_alpha_for_intervals` with the mean residual
      as the alpha of a window. */
  function AlphaFromResults(results: seq<ResultRow>, k: int): Result<seq<AlphaRow>, AlphaError>
  {
    if |results| == 0 then Err(MissingColumns)
    else
      match IntervalAlphas(GroupBy(results, ResultFund, ResultOrder), k, MeanResidual)
      case Err(e) => Err(WindowFailure(e))
      case Ok(rows) => Ok(rows)
  }

  /** Empty results fail with the KeyError whatever the window size. With a
      positive window size every fund contributes one alpha per complete
      window of its results; a zero window size fails with the ValueError of
      `range`; a negative one yields no alphas. */
  lemma {:induction false} AlphaFromResultsSize(results: seq<ResultRow>, k: int)
    ensures AlphaFromResults(results, k) == Err(MissingColumns) <==> |results| == 0
    ensures var g := GroupBy(results, ResultFund, ResultOrder);
      |results| > 0 && k > 0 ==> AlphaFromResults(results, k).Ok? && |AlphaFromResults(results, k).value| == WindowCount(g, k)
    ensures |results| > 0 && k == 0 ==> AlphaFromResults(results, k) == Err(WindowFailure(ZeroStep))
    ensures |results| > 0 && k < 0 ==> AlphaFromResults(results, k) == Ok([])
  {
    if |results| > 0 {
      if k > 0 {
        AlphaFromResultsPositive(results, k);
      } else if k == 0 {
        AlphaFromResultsZero(results);
      } else {
        AlphaFromResultsNegative(results, k);
      }
    }
  }

  lemma {:induction false} AlphaFromResultsPositive(results: seq<ResultRow>, k: int)
    requires |results| > 0 && k > 0
    ensures AlphaFromResults(results, k).Ok?
    ensures |AlphaFromResults(results, k).value| == WindowCount(GroupBy(results, ResultFund, ResultOrder), k)
  {
    IntervalAlphasPositive(GroupBy(results, ResultFund, ResultOrder), k, MeanResidual);
  }

  lemma {:induction false} AlphaFromResultsZero(results: seq<ResultRow>)
    requires |results| > 0
    ensures AlphaFromResults(results, 0) == Err(WindowFailure(ZeroStep))
  {
    GroupByNonEmpty(results, ResultFund, ResultOrder);
    IntervalAlphasZero(GroupBy(results, ResultFund, ResultOrder), MeanResidual);
  }

  lemma {:induction false} AlphaFromResultsNegative(results: seq<ResultRow>, k: int)
    requires |results| > 0 && k < 0
    ensures AlphaFromResults(results, k) == Ok([])
  {
    IntervalAlphasNegative(GroupBy(results, ResultFund, ResultOrder), k, MeanResidual);
  }
}
