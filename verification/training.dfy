/** The control of `train_loop`: epochs run one after another, the best
    validation accuracy is tracked, a counter of epochs without a strict
    improvement is kept, and training stops early once that counter reaches
    the patience. What an epoch computes (the network, its losses and its
    accuracy) is a parameter. Also the 70/30 split of the training data. */
module Training {
  import opened Outcomes

  /** The sizes of `random_split`: `int(dataset_size * 0.7)` for training and
      the rest for validation. Together they are the whole dataset, and the
      training part is 70% rounded down. */
  function SplitSizes(n: nat): (r: (nat, nat))
    ensures r.0 + r.1 == n
    ensures r.0 * 10 <= 7 * n < r.0 * 10 + 10
  {
    var train := 7 * n / 10;
    (train, n - train)
  }

  /** What one epoch yields: the average training loss, the validation loss
      and the validation accuracy. */
  datatype Epoch = Epoch(trainLoss: real, valLoss: real, accuracy: real)

  /** `best_test_accuracy` after the given epochs' accuracies: it starts at 0
      and takes every strictly better accuracy. */
  function BestOf(accs: seq<real>): real
  {
    if |accs| == 0 then 0.0
    else
      var b := BestOf(accs[..|accs| - 1]);
      if accs[|accs| - 1] > b then accs[|accs| - 1] else b
  }

  /** `epochs_no_improve` after the given epochs: reset by a strict
      improvement, incremented otherwise. */
  function Stale(accs: seq<real>): nat
  {
    if |accs| == 0 then 0
    else if accs[|accs| - 1] > BestOf(accs[..|accs| - 1]) then 0
    else Stale(accs[..|accs| - 1]) + 1
  }

  /** The best accuracy is the maximum of 0 and all accuracies so far. */
  lemma {:induction false} BestIsMaximum(accs: seq<real>)
    ensures BestOf(accs) >= 0.0
    ensures forall k :: 0 <= k < |accs| ==> accs[k] <= BestOf(accs)
    ensures BestOf(accs) == 0.0 || exists k :: 0 <= k < |accs| && accs[k] == BestOf(accs)
    decreases |accs|
  {
    if |accs| > 0 {
      var init := accs[..|accs| - 1];
      BestIsMaximum(init);
      assert forall k :: 0 <= k < |init| ==> init[k] == accs[k];
    }
  }

  /** The best accuracy never decreases from one epoch to the next. */
  lemma {:induction false} BestNeverDecreases(accs: seq<real>, k: nat)
    requires k <= |accs|
    ensures BestOf(accs[..k]) <= BestOf(accs)
  {
    BestIsMaximum(accs[..k]);
    BestIsMaximum(accs);
    if BestOf(accs[..k]) != 0.0 {
      var j :| 0 <= j < k && accs[..k][j] == BestOf(accs[..k]);
      assert accs[j] == accs[..k][j];
    }
  }

  /** The counter is the number of epochs since the last strict
      improvement: none of the last `Stale` epochs beat the best before
      them, and the epoch just before them did. */
  lemma {:induction false} StaleCountsSinceImprovement(accs: seq<real>)
    ensures Stale(accs) <= |accs|
    ensures forall k :: |accs| - Stale(accs) <= k < |accs| ==> accs[k] <= BestOf(accs[..k])
    ensures Stale(accs) < |accs| ==>
      var k := |accs| - Stale(accs) - 1;
      accs[k] > BestOf(accs[..k])
    decreases |accs|
  {
    if |accs| > 0 {
      var m := |accs| - 1;
      var init := accs[..m];
      StaleCountsSinceImprovement(init);
      forall k | 0 <= k < m ensures init[k] == accs[k] && init[..k] == accs[..k] { }
    }
  }

  /** The loop breaks after an epoch that did not improve and brought the
      counter to the patience. */
  predicate Stops(accs: seq<real>, patience: int)
  {
    Stale(accs) > 0 && Stale(accs) >= patience
  }

  /** One epoch's effect on the two trackers: a strict improvement becomes
      the best and resets the counter, anything else increments it. */
  lemma {:induction false} TrackerStep(accs: seq<real>, x: real)
    ensures var a := accs + [x];
      && (x > BestOf(accs) ==> BestOf(a) == x && Stale(a) == 0)
      && (x <= BestOf(accs) ==> BestOf(a) == BestOf(accs) && Stale(a) == Stale(accs) + 1)
  {
    var a := accs + [x];
    assert a[..|a| - 1] == accs;
  }

  /** The exception `train_loop` raises. */
  datatype TrainError = UnboundLocalError

  /** The lists `train_loop` builds and the values it returns: the last
      epoch's validation loss and accuracy. */
  datatype Outcome = Outcome(trainLosses: seq<real>, valLosses: seq<real>, valAccuracies: seq<real>,
                             lastValLoss: real, lastAccuracy: real, best: real)

  /** The training losses of epochs 0 .. n - 1, in order. */
  function TrainLosses(run: nat -> Epoch, n: nat): (ls: seq<real>)
    ensures |ls| == n
    ensures forall k :: 0 <= k < n ==> ls[k] == run(k).trainLoss
  {
    if n == 0 then [] else TrainLosses(run, n - 1) + [run(n - 1).trainLoss]
  }

  /** The validation losses of epochs 0 .. n - 1, in order. */
  function ValLosses(run: nat -> Epoch, n: nat): (ls: seq<real>)
    ensures |ls| == n
    ensures forall k :: 0 <= k < n ==> ls[k] == run(k).valLoss
  {
    if n == 0 then [] else ValLosses(run, n - 1) + [run(n - 1).valLoss]
  }

  /** The validation accuracies of epochs 0 .. n - 1, in order. */
  function Accuracies(run: nat -> Epoch, n: nat): (accs: seq<real>)
    ensures |accs| == n
    ensures forall k :: 0 <= k < n ==> accs[k] == run(k).accuracy
  {
    if n == 0 then [] else Accuracies(run, n - 1) + [run(n - 1).accuracy]
  }

  /** The three lists hold the first n epochs, in order, and the returned
      values are those of epoch n. */
  predicate Records(o: Outcome, run: nat -> Epoch, n: nat)
  {
    && n >= 1
    && o.trainLosses == TrainLosses(run, n)
    && o.valLosses == ValLosses(run, n)
    && o.valAccuracies == Accuracies(run, n)
    && o.lastValLoss == run(n - 1).valLoss && o.lastAccuracy == run(n - 1).accuracy
  }

  /** What `train_loop` promises of a completed run: every epoch run is
      recorded, at most `numEpochs` ran, no epoch before the last triggered
      the break, the loop ended early only because the last epoch did, and
      the best accuracy is the best of the recorded ones. */
  predicate Ran(o: Outcome, run: nat -> Epoch, numEpochs: int, patience: int)
  {
    var n := |o.valAccuracies|;
    && Records(o, run, n)
    && n <= numEpochs
    && (forall k :: 1 <= k < n ==> !Stops(Accuracies(run, k), patience))
    && (n < numEpochs ==> Stops(o.valAccuracies, patience))
    && o.best == BestOf(o.valAccuracies)
  }

  /** The state of `train_loop` after n epochs: the three lists hold those
      epochs, the trackers follow `BestOf` and `Stale`, the last values are
      those of epoch n, and no epoch before the last one triggered the break. */
  predicate Tracking(run: nat -> Epoch, patience: int, n: nat, trainLosses: seq<real>, valLosses: seq<real>,
                     accs: seq<real>, best: real, noImprove: int, lastLoss: real, lastAccuracy: real)
  {
    && trainLosses == TrainLosses(run, n) && valLosses == ValLosses(run, n) && accs == Accuracies(run, n)
    && best == BestOf(accs) && noImprove == Stale(accs)
    && (n > 0 ==> lastLoss == run(n - 1).valLoss && lastAccuracy == run(n - 1).accuracy)
    && (forall k :: 1 <= k < n ==> !Stops(Accuracies(run, k), patience))
  }

  /** One more epoch, with the trackers updated as the loop body does. */
  lemma {:induction false} Advance(run: nat -> Epoch, patience: int, n: nat, trainLosses: seq<real>, valLosses: seq<real>,
                accs: seq<real>, best: real, noImprove: int, lastLoss: real, lastAccuracy: real,
                best': real, noImprove': int)
    requires Tracking(run, patience, n, trainLosses, valLosses, accs, best, noImprove, lastLoss, lastAccuracy)
    requires n > 0 ==> !Stops(accs, patience)
    requires run(n).accuracy > best ==> best' == run(n).accuracy && noImprove' == 0
    requires run(n).accuracy <= best ==> best' == best && noImprove' == noImprove + 1
    ensures Tracking(run, patience, n + 1, trainLosses + [run(n).trainLoss], valLosses + [run(n).valLoss],
                     accs + [run(n).accuracy], best', noImprove', run(n).valLoss, run(n).accuracy)
  {
    TrackerStep(accs, run(n).accuracy);
    assert TrainLosses(run, n + 1) == trainLosses + [run(n).trainLoss];
    assert ValLosses(run, n + 1) == valLosses + [run(n).valLoss];
    assert Accuracies(run, n + 1) == accs + [run(n).accuracy];
    forall k | 1 <= k < n + 1 ensures !Stops(Accuracies(run, k), patience) {
      if k == n {
        assert Accuracies(run, k) == accs;
      }
    }
  }

  lemma {:induction false} Conclude(o: Outcome, run: nat -> Epoch, numEpochs: int, patience: int, n: nat)
    requires 1 <= n <= numEpochs
    requires Tracking(run, patience, n, o.trainLosses, o.valLosses, o.valAccuracies, o.best, Stale(o.valAccuracies), o.lastValLoss, o.lastAccuracy)
    requires n < numEpochs ==> Stops(o.valAccuracies, patience)
    ensures Ran(o, run, numEpochs, patience)
  {
  }

  /** `train_loop` with `run(epoch)` standing for one epoch of training and
      validation. With no epoch to run, the final `return` reads variables
      that were never assigned; otherwise the run satisfies `Ran`. */
  method TrainLoop(numEpochs: int, patience: int, run: nat -> Epoch) returns (r: Result<Outcome, TrainError>)
    ensures r.Err? <==> numEpochs <= 0
    ensures r.Ok? ==> Ran(r.value, run, numEpochs, patience)
  {
    if numEpochs <= 0 {
      return Err(UnboundLocalError);
    }
    var best := 0.0;
    var noImprove := 0;
    var trainLosses: seq<real> := [];
    var valLosses: seq<real> := [];
    var accs: seq<real> := [];
    var lastLoss, lastAccuracy := 0.0, 0.0;
    var epoch: nat := 0;
    while epoch < numEpochs
      invariant epoch <= numEpochs
      invariant Tracking(run, patience, epoch, trainLosses, valLosses, accs, best, noImprove, lastLoss, lastAccuracy)
      invariant epoch > 0 ==> !Stops(accs, patience)
    {
      var e := run(epoch);
      var improved := e.accuracy > best;
      var best', noImprove' := if improved then e.accuracy else best, if improved then 0 else noImprove + 1;
      Advance(run, patience, epoch, trainLosses, valLosses, accs, best, noImprove, lastLoss, lastAccuracy, best', noImprove');
      trainLosses, valLosses, accs := trainLosses + [e.trainLoss], valLosses + [e.valLoss], accs + [e.accuracy];
      lastLoss, lastAccuracy := e.valLoss, e.accuracy;
      best, noImprove := best', noImprove';
      epoch := epoch + 1;
      if !improved && noImprove >= patience {
        var o := Outcome(trainLosses, valLosses, accs, lastLoss, lastAccuracy, best);
        Conclude(o, run, numEpochs, patience, epoch);
        return Ok(o);
      }
    }
    var o := Outcome(trainLosses, valLosses, accs, lastLoss, lastAccuracy, best);
    Conclude(o, run, numEpochs, patience, epoch);
    r := Ok(o);
  }
}
