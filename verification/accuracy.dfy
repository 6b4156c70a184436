/** `test_accuracy`: the padded predictions of every protein are cut to the
    protein's true length and compared residue by residue with the true
    labels; the result is the percentage of matching residues. */
module Accuracy {
  import opened Outcomes
  import RealArith

  /** The Python exceptions `test_accuracy` can raise. */
  datatype AccuracyError = IndexError | ZeroDivisionError

  /** `pred[0:n]` when the lengths differ: the first n entries, or all of
      them when there are fewer. */
  function Truncate(pred: seq<int>, n: nat): (r: seq<int>)
    ensures |r| == if |pred| < n then |pred| else n
    ensures forall j :: 0 <= j < |r| ==> r[j] == pred[j]
  {
    if |pred| != n then (if |pred| < n then pred else pred[..n]) else pred
  }

  /** Every protein that has a prediction has a true label list, and its
      prediction covers all of its residues; otherwise the indexing of the
      source fails. */
  predicate Aligned(predictions: seq<seq<int>>, truths: seq<seq<int>>)
  {
    |predictions| <= |truths| && forall i :: 0 <= i < |predictions| ==> |predictions[i]| >= |truths[i]|
  }

  /** Residues of one protein whose predicted class is the true one. */
  function Agreements(pred: seq<int>, truth: seq<int>): (n: nat)
    requires |pred| >= |truth|
    ensures n <= |truth|
    ensures n == |truth| <==> forall j :: 0 <= j < |truth| ==> pred[j] == truth[j]
  {
    if |truth| == 0 then 0
    else
      var m := |truth| - 1;
      var rest := Agreements(pred, truth[..m]);
      assert forall j :: 0 <= j < m ==> truth[..m][j] == truth[j];
      rest + (if pred[m] == truth[m] then 1 else 0)
  }

  /** Total matches over the first |predictions| proteins. */
  function Matches(predictions: seq<seq<int>>, truths: seq<seq<int>>): nat
    requires Aligned(predictions, truths)
  {
    if |predictions| == 0 then 0
    else
      var m := |predictions| - 1;
      Matches(predictions[..m], truths) + Agreements(predictions[m], truths[m])
  }

  /** Residues compared: the true lengths of the first |predictions| proteins. */
  function Compared(predictions: seq<seq<int>>, truths: seq<seq<int>>): nat
    requires |predictions| <= |truths|
  {
    if |predictions| == 0 then 0
    else
      var m := |predictions| - 1;
      Compared(predictions[..m], truths) + |truths[m]|
  }

  /** Every compared residue is predicted correctly. */
  predicate AllAgree(predictions: seq<seq<int>>, truths: seq<seq<int>>)
    requires Aligned(predictions, truths)
  {
    forall i, j :: 0 <= i < |predictions| && 0 <= j < |truths[i]| ==> predictions[i][j] == truths[i][j]
  }

  /** Matches never exceed the residues compared, and reach them exactly
      when every residue is predicted correctly. */
  lemma {:induction false} MatchesBounded(predictions: seq<seq<int>>, truths: seq<seq<int>>)
    requires Aligned(predictions, truths)
    ensures Matches(predictions, truths) <= Compared(predictions, truths)
    ensures Matches(predictions, truths) == Compared(predictions, truths) <==> AllAgree(predictions, truths)
    decreases |predictions|
  {
    if |predictions| > 0 {
      var m := |predictions| - 1;
      var init := predictions[..m];
      assert forall i :: 0 <= i < m ==> init[i] == predictions[i];
      MatchesBounded(init, truths);
      var a := Agreements(predictions[m], truths[m]);
      if AllAgree(predictions, truths) {
        assert AllAgree(init, truths);
        assert forall j :: 0 <= j < |truths[m]| ==> predictions[m][j] == truths[m][j];
      }
      if Matches(predictions, truths) == Compared(predictions, truths) {
        assert Matches(init, truths) == Compared(init, truths);
        assert a == |truths[m]|;
        forall i, j | 0 <= i < |predictions| && 0 <= j < |truths[i]|
          ensures predictions[i][j] == truths[i][j]
        {
          if i < m {
            assert init[i] == predictions[i];
          }
        }
      }
    }
  }

  /** The percentage `(accuracy / total_predictions) * 100`. */
  function Percentage(matches: nat, total: nat): real
    requires total > 0
  {
    (matches as real / total as real) * 100.0
  }

  lemma {:induction false} PercentageBounds(matches: nat, total: nat)
    requires total > 0 && matches <= total
    ensures 0.0 <= Percentage(matches, total) <= 100.0
    ensures Percentage(matches, total) == 100.0 <==> matches == total
  {
    RealArith.QuotientVersusOne(matches as real, total as real);
  }

  /** `test_accuracy`, protein by protein and residue by residue. It fails
      with an IndexError exactly when some predicted protein has no true
      labels or a prediction shorter than its true length, and with a
      ZeroDivisionError exactly when otherwise no residue is compared; else
      it returns the percentage of matching residues, which lies in
      [0, 100] and is 100 exactly when every residue matches. */
  method TestAccuracy(predictions: seq<seq<int>>, truths: seq<seq<int>>) returns (r: Result<real, AccuracyError>)
    ensures r == Err(IndexError) <==> !Aligned(predictions, truths)
    ensures r == Err(ZeroDivisionError) <==> Aligned(predictions, truths) && Compared(predictions, truths) == 0
    ensures r.Ok? ==> Aligned(predictions, truths) && Compared(predictions, truths) > 0
    ensures r.Ok? ==> r.value == Percentage(Matches(predictions, truths), Compared(predictions, truths))
    ensures r.Ok? ==> 0.0 <= r.value <= 100.0
    ensures r.Ok? ==> (r.value == 100.0 <==> AllAgree(predictions, truths))
  {
    var accuracy: nat := 0;
    var total: nat := 0;
    var i := 0;
    while i < |predictions|
      invariant 0 <= i <= |predictions|
      invariant i <= |truths| && Aligned(predictions[..i], truths)
      invariant accuracy == Matches(predictions[..i], truths)
      invariant total == Compared(predictions[..i], truths)
    {
      if i >= |truths| {
        NotAligned(predictions, truths, i);
        return Err(IndexError);
      }
      var truth := truths[i];
      var pred := Truncate(predictions[i], |truth|);
      if |pred| < |truth| {
        NotAligned(predictions, truths, i);
        return Err(IndexError);
      }
      var agreed := CountAgreements(predictions[i], pred, truth);
      assert predictions[..i + 1][..i] == predictions[..i];
      accuracy := accuracy + agreed;
      total := total + |truth|;
      i := i + 1;
    }
    assert predictions[..i] == predictions;
    if total == 0 {
      return Err(ZeroDivisionError);
    }
    AccuracyBounds(predictions, truths);
    r := Ok(Percentage(accuracy, total));
  }

  /** The percentage of a completed comparison lies in [0, 100] and is 100
      exactly when every residue matches. */
  lemma {:induction false} AccuracyBounds(predictions: seq<seq<int>>, truths: seq<seq<int>>)
    requires Aligned(predictions, truths) && Compared(predictions, truths) > 0
    ensures var p := Percentage(Matches(predictions, truths), Compared(predictions, truths));
      0.0 <= p <= 100.0 && (p == 100.0 <==> AllAgree(predictions, truths))
  {
    MatchesBounded(predictions, truths);
    PercentageBounds(Matches(predictions, truths), Compared(predictions, truths));
  }

  /** The inner loop of `test_accuracy` over one protein's residues. */
  method CountAgreements(full: seq<int>, pred: seq<int>, truth: seq<int>) returns (agreed: nat)
    requires |full| >= |truth| && |pred| == |truth|
    requires forall j :: 0 <= j < |pred| ==> pred[j] == full[j]
    ensures agreed == Agreements(full, truth)
  {
    var idx := 0;
    agreed := 0;
    while idx < |truth|
      invariant 0 <= idx <= |truth|
      invariant agreed == Agreements(full, truth[..idx])
    {
      assert truth[..idx + 1][..idx] == truth[..idx];
      if pred[idx] == truth[idx] {
        agreed := agreed + 1;
      }
      idx := idx + 1;
    }
    assert truth[..idx] == truth;
  }

  lemma {:induction false} NotAligned(predictions: seq<seq<int>>, truths: seq<seq<int>>, i: nat)
    requires i < |predictions|
    requires i >= |truths| || |predictions[i]| < |truths[i]|
    ensures !Aligned(predictions, truths)
  {
  }
}
