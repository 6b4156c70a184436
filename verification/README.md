# Fund persistence and secondary-structure bookkeeping, in Dafny

This project models the sequential bookkeeping of two analysis scripts and
proves properties of it.

The first script, `xi_wu_pre8.py`, studies whether mutual and hedge funds keep
beating their peers. It does the following:
- cuts every fund's monthly history into complete windows of k months and
  gives each window an alpha;
- marks each fund in each window as a winner or loser against that window's
  median;
- tallies the transitions between consecutive windows into a WW/LL/WL/LW
  contingency table;
- derives the cross-product ratio and the chi-square statistic from the
  table's totals;
- lags each fund's alpha by one window and counts the funds whose regression
  is significant;
- walks an expanding train/test date window in 12-month steps;
- summarises how long funds live and whether they are still active.

The second script, `jwsign0.py`, predicts protein secondary structure. It does
the following:
- encodes amino acids and the structure classes C/E/H with fixed
  dictionaries, and decodes predicted classes back to letters;
- cuts padded predictions to each protein's true length and scores
  per-residue accuracy;
- runs a training loop that stops early after `patience` epochs without a
  strict improvement;
- splits the dataset 70/30;
- names every residue `<protein>_<1-based position>` for the export
  dictionary.

Tables are sequences of immutable records. pandas operations become pure
functions:
- `groupby` gives groups in ascending key order, each sorted by the sort key.
- `unique()` keeps first-appearance order.
- `median()` of an even count is the mean of the two middle values.
- `cat.codes` is the position in the sorted categories.
- `DateOffset(months=n)` clamps the day to the length of the target month.

Python exceptions become `Result` errors, and pandas NaN becomes `None`.
The things computed by libraries are parameters of the model:
- a window's regression alpha;
- a fund's regression p-value;
- the random forest's predictions;
- one epoch of neural-network training.

Modules:

| module | file | what it holds |
|---|---|---|
| Outcomes | outcomes.dfy | `Option` and `Result` |
| SeqUtil | seq_util.dfy | sums, counting, filtering, distinct and sorted-distinct values |
| Sorting | sorting.dfy | stable insertion sort by a real key (`sort_values`) |
| Stats | stats.dfy | pandas median and mean |
| RealArith | arith.dfy | small facts about real quotients |
| Calendar | calendar.dfy | Gregorian dates, month arithmetic, day numbers |
| Grouping | grouping.dfy | `groupby` with sorted groups, `df[df[col] == k]` |
| Intervals | intervals.dfy | `calculate_alpha_for_intervals` windowing, alpha-table selections |
| Contingency | contingency.dfy | `construct_contingency_table` |
| PersistenceStats | persistence_stats.dfy | CPR and chi-square of `calculate_cpr_z_chisq` |
| WinsLoses | wins_loses.dfy | `calculate_wins_loses` |
| Lagged | lagged.dfy | `prepare_lagged_alpha_df`, counting in `process_and_regress` |
| Backtest | backtest.dfy | the date walk of `train_and_predict`, `calculate_alpha_from_results` |
| FundStatus | fund_status.dfy | `analyze_fund_data` |
| ResidueCodes | residue_codes.dfy | `acid_dict`, `label_dict`, `index_to_structure` |
| Accuracy | accuracy.dfy | `test_accuracy` |
| Predictions | predictions.dfy | `create_pred`, residue names, `pred_dict` |
| Training | training.dfy | early stopping in `train_loop`, the split sizes |

## Model

| member | source | states |
|---|---|---|
| Intervals.FundWindowsShape | xi_wu_pre8.py:150-160 | a fund with n rows and window size k > 0 yields exactly n div k rows; row j carries Interval j and the alpha of rows j·k .. j·k+k-1, which is a complete window (contract of `Intervals.FundWindows`, the inner window loop) |
| Intervals.WindowsFromShape | xi_wu_pre8.py:153-160 | from start index q·k the loop emits rows numbered q, q+1, … up to n div k - 1, in order, each over a complete window |
| Intervals.WindowsFromHead | xi_wu_pre8.py:154-160 | a complete window at index q·k emits its row, with Interval q |
| Intervals.WindowsFromEnd | xi_wu_pre8.py:153-157 | a trailing partial window emits nothing, and its index q equals n div k |
| Intervals.IntervalAlphasSize | xi_wu_pre8.py:147-163 | with k > 0 the table holds each fund's complete-window count; with k = 0 `range` raises exactly when there is a fund; with k < 0 the table is empty (contract of `Intervals.IntervalAlphas`, which models `calculate_alpha_for_intervals`) |
| Intervals.IntervalAlphasPositive | xi_wu_pre8.py:147-163 | with k > 0 the windowing succeeds and the table holds each fund's complete-window count |
| Intervals.IntervalAlphasZero | xi_wu_pre8.py:153 | with k = 0 the first fund's `range` raises ValueError, and with no fund the table is empty |
| Intervals.IntervalAlphasNegative | xi_wu_pre8.py:153 | with k < 0 every fund's `range` is empty, so the table is empty |
| Intervals.FirstAlpha | xi_wu_pre8.py:192-197 | the fund's alpha at an interval exists exactly when the fund has a row at that interval, and it is the alpha of the first such row, as `.values[0]` takes |
| Contingency.Classify | xi_wu_pre8.py:200-207 | the if/elif chain agrees with the winner/loser reading of both intervals; each of WW, LL, WL, LW holds exactly under its own pair of comparisons, so the four cases are exhaustive and exclusive |
| Contingency.TransitionOf | xi_wu_pre8.py:192-197 | a fund has a transition exactly when it has an alpha in both intervals |
| Contingency.Tally | xi_wu_pre8.py:191-207 | the four counts of one interval pair add up to the number of funds present in both intervals |
| Contingency.TallyColumn | xi_wu_pre8.py:191-207 | each column of a tally equals the number of funds making that transition |
| Contingency.TallyCountsTransitions | xi_wu_pre8.py:191-207 | a tally counts, column by column, the funds making each transition |
| Contingency.TalliedRows | xi_wu_pre8.py:181-207 | a table row that holds the tally of an interval and the next one counts, column by column, the funds making each transition between them |
| Contingency.ConstructContingencyTable | xi_wu_pre8.py:175-209 | one row per distinct interval, in order of first appearance as `unique()` gives; the row of the largest interval stays all zeros; the row of every other interval counts, per column, the funds making that transition into the next larger interval |
| PersistenceStats.ColumnTotalsAppend | xi_wu_pre8.py:224-227 | the column sums of two tables concatenated are the sums of their column sums |
| PersistenceStats.ColumnTotalsPermutation | xi_wu_pre8.py:224-227 | the column sums do not depend on the order of the table's rows |
| PersistenceStats.Cpr | xi_wu_pre8.py:230 | CPR is defined exactly when WL ≠ 0 and LW ≠ 0; it is then non-negative, above 1 exactly when WW·LL > WL·LW, and 1 exactly when they are equal |
| PersistenceStats.ExpectedCounts | xi_wu_pre8.py:238-243 | the expected counts exist exactly when N > 0 |
| PersistenceStats.ExpectedSumToN | xi_wu_pre8.py:238-243 | with N > 0 the expected counts D1 + D2 + D3 + D4 add up to N |
| PersistenceStats.Deviations | xi_wu_pre8.py:238-245 | every cell deviates from its expected count by the same amount (WW·LL - WL·LW)/N, with alternating sign |
| PersistenceStats.TermNonNegative | xi_wu_pre8.py:245 | each chi-square term is non-negative for a positive expected count, and zero exactly when the cell equals its expected count |
| PersistenceStats.ChiSquareSign | xi_wu_pre8.py:238-245 | with every expected count positive, chi-square is defined and non-negative, and it is zero exactly when WW·LL = WL·LW (contract of `PersistenceStats.ChiSquare`, which models the chi-square sum) |
| WinsLoses.ScoreAgainst | xi_wu_pre8.py:266-267 | every row gets Wins + Loses = 1; Wins = 1 exactly when alpha > median and Loses = 1 exactly when alpha <= median |
| WinsLoses.BlockWellScored | xi_wu_pre8.py:263-267 | one interval's block is scored against that interval's own median |
| WinsLoses.ScoredBlocks | xi_wu_pre8.py:262-268 | the loop's output is the interval blocks in turn, each row scored against its own interval's median |
| WinsLoses.CalculateWinsLoses | xi_wu_pre8.py:260-269 | the result rearranges the input rows, and every row is flagged against the median of its own interval |
| WinsLoses.WinnersAreAbove | xi_wu_pre8.py:266 | the winners of an interval are exactly its alphas above the median |
| WinsLoses.WinnersAtMostHalf | xi_wu_pre8.py:265-266 | at most half of an interval's funds are winners |
| Sorting.SortBy | xi_wu_pre8.py:421 | the rows come out ascending in the sort key and are a rearrangement of the input, as `sort_values` returns them (contract of the sort behind `Backtest.TrainAndPredict`, `Grouping.GroupBy` and `Stats.Median`) |
| Stats.MedianSplitsInHalf | xi_wu_pre8.py:188-189 | at most half of the values lie strictly above the pandas median, and at most half strictly below (contract of `Stats.Median`, which models `Series.median()`) |
| Lagged.Shift | xi_wu_pre8.py:547 | `shift(1)` moves every value one row down and leaves the first row missing |
| Lagged.LagGroup | xi_wu_pre8.py:546-551 | a fund with n ≥ 1 rows keeps n - 1 lagged rows; row j carries row j+1's fields and row j's alpha as Lagged_Alpha |
| Lagged.LagGroupRecoversAlphas | xi_wu_pre8.py:547-551 | for a fund with at least two rows, the first lagged value plus the kept alphas are all of its alphas: nothing but the first row is lost |
| Lagged.PrepareLaggedSize | xi_wu_pre8.py:545-553 | the lagged table has exactly one row fewer per fund than the alpha table (contract of `Lagged.PrepareLagged`, which models `prepare_lagged_alpha_df`) |
| Lagged.PrepareLaggedPrevious | xi_wu_pre8.py:545-551 | every lagged row is a row of its fund, and its Lagged_Alpha is the alpha of that fund's closest earlier interval (contract of `Lagged.PrepareLagged`) |
| Lagged.PrepareLaggedFunds | xi_wu_pre8.py:545-551 | a fund appears in the lagged table exactly when it has at least two alpha rows (contract of `Lagged.PrepareLagged`) |
| Lagged.LaggedRowSource | xi_wu_pre8.py:545-549 | every lagged row comes from two neighbouring rows of its own fund's sorted group |
| Lagged.NoneBetweenNeighbours | xi_wu_pre8.py:546 | in a group sorted by interval, no member lies strictly between two neighbours |
| Lagged.ProcessAndRegress | xi_wu_pre8.py:586-602 | total_funds is the number of distinct funds and significant_funds those with p < 0.05; 0 ≤ sig ≤ total; the ratio lies in [0, 1], is 0 when there is no fund, 1 exactly when all are significant, and 0 exactly when none is |
| Lagged.LaggedFundsHaveHistory | xi_wu_pre8.py:545-551 | the funds of the lagged table, in `groupby` order, are exactly the funds with at least two alpha rows |
| Lagged.PrepareAndRegress | xi_wu_pre8.py:542-602 | an empty alpha table fails with the KeyError of grouping the column-less lagged frame; otherwise total_funds counts the funds with at least two alpha rows and significant_funds those among them whose lagged regression has p < 0.05 |
| Lagged.RatioBounds | xi_wu_pre8.py:601 | sig/total lies in [0, 1], equals 1 exactly when sig = total, and 0 exactly when sig = 0 |
| Backtest.Walk | xi_wu_pre8.py:428-437 | every step date is reached from `start` by repeated 12-month offsets and lies in [start, end]; every such date up to `end` whose training and test windows are both non-empty is a step; each step's windows are those of its date; steps come in date order, at least 12 months apart; nothing is visited when `start` is after `end` |
| Backtest.WalkIncreasing | xi_wu_pre8.py:436 | the step dates strictly increase |
| Backtest.StepSeparates | xi_wu_pre8.py:431-432 | training dates lie in [train_start, current) and test dates in [current, current + 12 months); the two are disjoint, and every training date precedes every test date |
| Backtest.Expanding | xi_wu_pre8.py:431 | once past train_start, every row a step predicts belongs to the training set of every later step |
| Backtest.CodeOf | xi_wu_pre8.py:451-452 | a category code is the fund's position among the categories, or -1 when it is absent |
| Backtest.CodesInjective | xi_wu_pre8.py:451-452 | against one sorted list of categories, two funds share a code exactly when they are the same fund |
| Backtest.CategoryCodes | xi_wu_pre8.py:451 | pandas codes index the sorted distinct values, and the code of a row leads back to its fund |
| Backtest.SeparateCodesDisagree | xi_wu_pre8.py:451-452 | encoding the training and test frames separately gives one fund two different codes |
| Backtest.PerWindowCodesDisagree | xi_wu_pre8.py:451-452 | in a step whose training funds are 1, 2 and whose test fund is 2, the model is fitted with fund 2 as code 1 and asked about fund 2 as code 0, fund 1's training code |
| Backtest.CodesAgreeAcrossWindows | xi_wu_pre8.py:451-452 | encoded against the whole frame's funds, a training row and a test row of the same fund get the same valid code |
| Backtest.StepResults | xi_wu_pre8.py:449-475 | a step appends one result per test row, in order: its fund, date and actual target, and the prediction of the model fitted on the step's encoded training samples for the row's encoded features |
| Backtest.AllResultsSize | xi_wu_pre8.py:469-475 | the results hold one row per test row over all steps |
| Backtest.AllResultsSlice | xi_wu_pre8.py:469-475 | the results of a step form one block, right after the results of all earlier steps |
| Backtest.TrainAndPredict | xi_wu_pre8.py:419-484 | over the walk of the date-sorted frame, the results hold one row per test row, none exactly when no step ran, and step after step the block of rows that step reports, with Fund_ID encoded separately for its training and its test frame |
| Backtest.TrainAndPredictShared | xi_wu_pre8.py:419-484 | the same results with Fund_ID encoded against the funds of the whole frame; within every step a fund's training and test rows reach the model with the same code |
| Backtest.SharedCodesAgree | xi_wu_pre8.py:451-452 | with whole-frame categories, in every step of the walk a training row and a test row of the same fund get the same code |
| Backtest.Residuals | xi_wu_pre8.py:511 | each residual is actual minus predicted |
| Backtest.ResidualSum | xi_wu_pre8.py:511 | the sum of the residuals is the sum of the actuals minus the sum of the predictions |
| Backtest.MeanResidualIsUnexplained | xi_wu_pre8.py:511-524 | a window's alpha is the difference between total actual and total predicted, divided by the window length |
| Backtest.AlphaFromResultsSize | xi_wu_pre8.py:484-529 | empty results fail with the KeyError of sorting a column-less frame; otherwise with k > 0 each fund contributes one alpha per complete window of its results, with k = 0 `range` raises, and with k < 0 there are no alphas (contract of `Backtest.AlphaFromResults`, which models `calculate_alpha_from_results`) |
| Grouping.Part | xi_wu_pre8.py:185-186 | a selection holds exactly the rows with that key |
| Grouping.GroupBy | xi_wu_pre8.py:147-150 | groups come in strictly ascending key order; each is non-empty, holds exactly its key's rows and is sorted; every row's key has a group |
| Grouping.GroupByPartitions | xi_wu_pre8.py:147-150 | the groups together hold every row exactly once |
| Grouping.PartsPermute | xi_wu_pre8.py:261-268 | when every row's key is listed exactly once, the selections concatenated rearrange the rows |
| Calendar.AddMonths | xi_wu_pre8.py:432 | adding n months moves the month index by n and keeps the day, clamped to the target month's last day |
| Calendar.AddMonthsLater | xi_wu_pre8.py:436 | adding a positive number of months gives a strictly later date |
| Calendar.DayNumberOrder | xi_wu_pre8.py:692 | day numbers follow the calendar: earlier dates have smaller numbers, and equal numbers mean equal dates |
| FundStatus.Span | xi_wu_pre8.py:691-701 | first and last dates bound the fund's records and are record dates; months are the whole 30-day periods between them; active exactly when some record is on or after 2024-05-01 (each row of `FundStatus.Lifecycles`, which models the `fund_lifecycle` table) |
| FundStatus.Summarize | xi_wu_pre8.py:695-711 | active + dead = total; the averages exist exactly when there is a fund, and are non-negative |
| FundStatus.AnalyzeFundData | xi_wu_pre8.py:688-713 | total is the number of distinct Fund_IDs; active + dead = total; the averages exist exactly when there is a record |
| FundStatus.NonNegativeAverages | xi_wu_pre8.py:695-696 | the mean and median of non-negative lifecycles are non-negative |
| ResidueCodes.AcidsDistinct | jwsign0.py:68-69 | the twenty letters are pairwise distinct |
| ResidueCodes.AcidIndex | jwsign0.py:69 | a letter has an index exactly when it is one of the twenty, and the index leads back to the letter |
| ResidueCodes.AcidIndexBijective | jwsign0.py:68-69 | `acid_dict` is a bijection from the twenty letters onto 0 .. 19 |
| ResidueCodes.EncodeAcids | jwsign0.py:85-86 | a protein encodes exactly when every residue is one of the twenty letters, giving indices in 0 .. 19 |
| ResidueCodes.AcidsRoundTrip | jwsign0.py:68-86 | decoding a protein's indices gives its residues back |
| ResidueCodes.LabelIndex | jwsign0.py:96-98 | C, E, H encode as 0, 1, 2 and nothing else encodes |
| ResidueCodes.IndexToStructure | jwsign0.py:542-543 | exactly 0, 1, 2 decode, to a structure letter that encodes back to the index |
| ResidueCodes.LabelsInverse | jwsign0.py:96-98 | `label_dict` and `index_to_structure` are mutual inverses |
| ResidueCodes.EncodeLabels | jwsign0.py:96-98 | a structure string encodes exactly when it is over C, E, H, giving indices in 0 .. 2 |
| ResidueCodes.DecodeStructure | jwsign0.py:543 | indices decode exactly when all lie in 0 .. 2, giving a string over C, E, H of the same length |
| ResidueCodes.StructureRoundTrip | jwsign0.py:96-98 | encoding a label string and decoding it returns it unchanged |
| ResidueCodes.IndexRoundTrip | jwsign0.py:542-543 | decoding indices in 0 .. 2 and encoding the letters returns the indices |
| Accuracy.Truncate | jwsign0.py:220-221 | a prediction is cut to the true length, or kept whole when shorter, without changing its entries |
| Accuracy.Agreements | jwsign0.py:224-227 | one protein's matches never exceed its length, and equal it exactly when every residue matches |
| Accuracy.MatchesBounded | jwsign0.py:214-227 | total matches never exceed the residues compared, and equal them exactly when every residue matches |
| Accuracy.CountAgreements | jwsign0.py:224-227 | the inner loop counts the matching residues of the truncated prediction |
| Accuracy.PercentageBounds | jwsign0.py:230 | the percentage lies in [0, 100] and is 100 exactly when all match |
| Accuracy.AccuracyBounds | jwsign0.py:214-230 | a completed comparison's percentage lies in [0, 100] and is 100 exactly when every residue matches |
| Accuracy.TestAccuracy | jwsign0.py:200-231 | IndexError exactly when a predicted protein has no labels or a too-short prediction; ZeroDivisionError exactly when no residue is compared; otherwise the percentage of matches, in [0, 100], 100 exactly when all match |
| Predictions.Truncated | jwsign0.py:531-540 | every prediction becomes its leading part, as long as the shorter of the prediction and its protein |
| Predictions.DecodeAll | jwsign0.py:543 | every protein decodes exactly when all its indices lie in 0 .. 2 |
| Predictions.CreatePred | jwsign0.py:520-545 | IndexError exactly when there are more predictions than proteins; KeyError exactly when a kept index lies outside 0 .. 2; otherwise a prediction at least as long as its protein becomes exactly that long, every letter is C, E or H, and the letters encode back to the truncated indices |
| Predictions.DecodedEncodeBack | jwsign0.py:542-543 | decoded predictions encode back to the indices |
| Predictions.ParseNatToString | jwsign0.py:565 | reading back the digits of `str(n)` gives n |
| Predictions.ResidueName | jwsign0.py:565 | a residue name is the protein id, an underscore and the 1-based position in decimal |
| Predictions.SplitAtUnderscore | jwsign0.py:565 | a name splits back into its id and number, because the number has no underscore |
| Predictions.ResidueNamesUnique | jwsign0.py:564-567 | two residues share a name exactly when they are the same protein and position |
| Predictions.AddProtein | jwsign0.py:564-567 | after one protein every residue name maps to its letter; every other key is untouched |
| Predictions.PredDict | jwsign0.py:560-567 | the loop fails with IndexError exactly when a non-empty prediction has no protein id |
| Predictions.PredDictLookup | jwsign0.py:560-567 | with distinct ids, each residue's name maps to that residue's predicted letter |
| Predictions.PredDictOk | jwsign0.py:560-567 | with an id for every prediction, building the dictionary succeeds |
| Training.SplitSizes | jwsign0.py:124-125 | the training and validation sizes are non-negative and add up to the dataset size; training is 70% rounded down |
| Training.BestIsMaximum | jwsign0.py:242-291 | the best accuracy is the maximum of 0 and all accuracies so far |
| Training.BestNeverDecreases | jwsign0.py:290-291 | the best accuracy never decreases across epochs |
| Training.TrackerStep | jwsign0.py:290-296 | a strict improvement becomes the best and resets the counter to 0; otherwise the best stays and the counter increases by 1 |
| Training.StaleCountsSinceImprovement | jwsign0.py:290-296 | the counter is the number of epochs since the last strict improvement |
| Training.TrainLoop | jwsign0.py:238-307 | with no epoch the return reads unassigned variables; otherwise at most num_epochs run, the three lists hold exactly the epochs run, in order, no earlier epoch triggered the break, an early end happened only because the last epoch brought the counter to patience, and the returned values are the last epoch's |

## Left out

- FundStatus.AnalyzeFundData: in the source, the docstring of `analyze_fund_data` (xi_wu_pre8.py:677-687) is indented two spaces and its body (from line 688) four, so the definition does not compile (IndentationError) and the later calls of it raise NameError. The model follows the evidently intended body.
- Sorting.SortBy: rows with equal keys keep their input order here, while the default quicksort of pandas `sort_values` leaves their order unspecified; the contract promises only ascending keys and a rearrangement of the input.
- File, Drive, Excel and CSV reading and writing; the CSV export reads `pred_dict` and is modelled only through `Predictions.PredDictLookup`.
- Library model fitting. The OLS alpha of a window, the regression p-value, the random forest's fit and predictions, and one epoch of network training are parameters. The MSE and feature importances of `train_and_predict` are not modelled.
- The KS tests, Monte Carlo significance, and the binomial and normal tables: random sampling and foreign statistics.
- The Z statistic of `calculate_cpr_z_chisq`: it needs the logarithm and square root of floats.
- Floating-point arithmetic. Alphas, accuracies and the statistics are exact reals. NumPy's infinities and NaN from zero divisors become `None`.
- Training.SplitSizes: `int(dataset_size * 0.7)` is modelled as exact 7·n div 10. The floating-point product can fall just below a whole number, so the source may give one less.
- pandas dtype coercion (`pd.to_numeric(errors='coerce')`) and NaN rows: the input is taken as clean.
- Sorting ties. `sort_values` uses an unstable quicksort; the model uses a stable sort, so rows with equal dates may come in another order.
- The order of protein ids, which comes from `os.walk`: ids are a parameter.
- Dataset and tensor plumbing: DataLoader, padding and `collate_fn`. The true labels and sequences arrive as lists of indices.
- The average training loss (`running_loss / len(loader)`) belongs to the opaque epoch.
- CreatePred: `create_pred` also writes each truncated prediction back into the caller's `predictions` list. The model returns the new lists and does not model that in-place change.
- Dates are Gregorian dates at midnight from year 1 on. The pandas Timestamp range limit (1677–2262) is not modelled.

## Findings

| source | as written | input that shows it | evidently intended | confidence | as-written member | corrected member |
|---|---|---|---|---|---|---|
| xi_wu_pre8.py:451-452 | `Fund_ID` is encoded with `.astype('category').cat.codes` separately for the training and the test frame | funds 1 and 2 in the training window, only fund 2 in the test window: fund 2 is code 1 when fitting and code 0 when predicting | one encoding over the whole frame, so a fund keeps its code across windows | not executed | Backtest.PerWindowCodesDisagree | Backtest.TrainAndPredictShared |
