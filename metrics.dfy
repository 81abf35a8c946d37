/** The two reductions of the accuracy matrix in evaluation/continual_metrics.py:
    `compute_acc_fgt` (ACC and Fgt after the final stage) and `compute_stage_acc_fgt`
    (the same metrics as of an intermediate stage). Python floats are modelled as `real`.

    Both reductions share one forgetting loop, `ForgettingValues`, specified by the
    function `FgtValues`. The lemmas show that, under each reduction's own precondition,
    the "skip tasks without history" branch of that loop never fires: every task's window
    contains the set value of the reference row. */
module Metrics {
  import opened Common
  import opened MatrixStore

  /** The shape every stored matrix has: as many cells per row as there are rows. */
  predicate IsSquare(m: Matrix) {
    forall i | 0 <= i < |m| :: |m[i]| == |m|
  }

  /** No cell is `None`. */
  predicate AllSet(cells: seq<Cell>) {
    forall k | 0 <= k < |cells| :: cells[k].Some?
  }

  /** The accuracies of a row whose cells are all set. */
  function Values(cells: seq<Cell>): (vs: seq<real>)
    requires AllSet(cells)
    ensures |vs| == |cells| && forall k | 0 <= k < |cells| :: cells[k] == Some(vs[k])
  {
    seq(|cells|, k requires 0 <= k < |cells| => cells[k].value)
  }

  /** Python's `sum`, accumulating from the left. */
  function Sum(xs: seq<real>): real {
    if xs == [] then 0.0 else Sum(xs[..|xs| - 1]) + xs[|xs| - 1]
  }

  /** `sum(xs) / len(xs) if xs else 0.0` */
  function MeanOrZero(xs: seq<real>): real {
    if xs == [] then 0.0 else Sum(xs) / |xs| as real
  }

  /** Python's `max` of a non-empty list: an element that no element exceeds. */
  function MaxOf(xs: seq<real>): (mx: real)
    requires xs != []
    ensures mx in xs
    ensures forall k | 0 <= k < |xs| :: xs[k] <= mx
  {
    if |xs| == 1 then xs[0]
    else
      var m := MaxOf(xs[..|xs| - 1]);
      if xs[|xs| - 1] > m then xs[|xs| - 1] else m
  }

  /** The history of task `j`:
      `[matrix[t][j] for t in range(lo, hi) if matrix[t][j] is not None]`. */
  function History(m: Matrix, j: nat, lo: nat, hi: nat): (h: seq<real>)
    requires hi <= |m| && forall t | lo <= t < hi :: j < |m[t]|
    ensures forall t | lo <= t < hi && m[t][j].Some? :: m[t][j].value in h
    decreases hi
  {
    if hi <= lo then []
    else
      var h := History(m, j, lo, hi - 1);
      var cell := m[hi - 1][j];
      if cell.Some? then h + [cell.value] else h
  }

  /** Every value in a history is a set cell of the column inside the window. */
  lemma {:induction false} HistoryElements(m: Matrix, j: nat, lo: nat, hi: nat)
    requires hi <= |m| && forall t | lo <= t < hi :: j < |m[t]|
    ensures forall x | x in History(m, j, lo, hi) :: exists t | lo <= t < hi :: m[t][j] == Some(x)
    decreases hi
  {
    if hi > lo {
      HistoryElements(m, j, lo, hi - 1);
    }
  }

  /** A history lists the set cells in row order: the history of a window is the history of
      its first part followed by that of the rest, and the history of one row is its cell's
      value, if set. */
  lemma {:induction false} HistoryInRowOrder(m: Matrix, j: nat, lo: nat, mid: nat, hi: nat)
    requires lo <= mid <= hi <= |m| && forall t | lo <= t < hi :: j < |m[t]|
    ensures History(m, j, lo, hi) == History(m, j, lo, mid) + History(m, j, mid, hi)
    ensures lo < hi ==> History(m, j, hi - 1, hi) == if m[hi - 1][j].Some? then [m[hi - 1][j].value] else []
    decreases hi
  {
    if hi > mid {
      HistoryInRowOrder(m, j, lo, mid, hi - 1);
      var a, b := History(m, j, lo, mid), History(m, j, mid, hi - 1);
      var cell := m[hi - 1][j];
      if cell.Some? {
        assert (a + b) + [cell.value] == a + (b + [cell.value]);
      }
    } else {
      assert History(m, j, mid, hi) == [];
    }
  }

  /** What both reductions read: the matrix is square, the reference row `ref` and the
      window's end `end` lie inside it, and the reference row is set in the first `count`
      columns (otherwise Python's subtraction from `None` fails). */
  predicate ForgettingDomain(m: Matrix, count: nat, end: nat, ref: nat) {
    IsSquare(m) && count <= |m| && end <= |m| && ref < |m|
    && forall j | 0 <= j < count :: m[ref][j].Some?
  }

  /** Forgetting of task `j`: the best accuracy it had in rows `j .. end-1` minus its
      accuracy in the reference row. */
  function Forgetting(m: Matrix, j: nat, end: nat, ref: nat): (f: real)
    requires ForgettingDomain(m, j + 1, end, ref) && History(m, j, j, end) != []
    ensures f + m[ref][j].value in History(m, j, j, end)
    ensures forall k | 0 <= k < |History(m, j, j, end)| :: History(m, j, j, end)[k] - m[ref][j].value <= f
    ensures j <= ref < end ==> f >= 0.0
  {
    var h := History(m, j, j, end);
    assert j <= ref < end ==> m[ref][j].value in h;
    MaxOf(h) - m[ref][j].value
  }

  /** The list `fgt_values` after the loop has visited tasks `0 .. count-1`: a task whose
      history over rows `task .. end-1` is empty is skipped. */
  function FgtValues(m: Matrix, count: nat, end: nat, ref: nat): (fgts: seq<real>)
    requires ForgettingDomain(m, count, end, ref)
    ensures |fgts| <= count
    decreases count
  {
    if count == 0 then []
    else
      var prev := FgtValues(m, count - 1, end, ref);
      if History(m, count - 1, count - 1, end) == [] then prev
      else prev + [Forgetting(m, count - 1, end, ref)]
  }

  /** One more task either adds its forgetting value or, with no history, nothing. */
  lemma FgtValuesStep(m: Matrix, count: nat, end: nat, ref: nat)
    requires ForgettingDomain(m, count + 1, end, ref)
    ensures ForgettingDomain(m, count, end, ref)
    ensures History(m, count, count, end) == [] ==> FgtValues(m, count + 1, end, ref) == FgtValues(m, count, end, ref)
    ensures History(m, count, count, end) != [] ==>
      FgtValues(m, count + 1, end, ref) == FgtValues(m, count, end, ref) + [MaxOf(History(m, count, count, end)) - m[ref][count].value]
  {
  }

  /** When the reference row lies in every task's window (each task `j < count` has
      `j <= ref < end`), no task is skipped: the list holds exactly one non-negative
      forgetting value per task, in task order. */
  lemma {:induction false} FgtValuesComplete(m: Matrix, count: nat, end: nat, ref: nat)
    requires ForgettingDomain(m, count, end, ref)
    requires count <= ref + 1 && ref < end
    ensures forall j | 0 <= j < count :: History(m, j, j, end) != []
    ensures |FgtValues(m, count, end, ref)| == count
    ensures forall j | 0 <= j < count ::
      FgtValues(m, count, end, ref)[j] == Forgetting(m, j, end, ref) >= 0.0
  {
    if count > 0 {
      var j := count - 1;
      assert ForgettingDomain(m, j, end, ref);
      FgtValuesComplete(m, j, end, ref);
      var prev := FgtValues(m, j, end, ref);
      var h := History(m, j, j, end);
      assert m[ref][j].value in h;
      var fgt := Forgetting(m, j, end, ref);
      assert fgt >= 0.0;
      assert FgtValues(m, count, end, ref) == prev + [fgt];
    }
  }

  /** The sum of non-negative numbers is non-negative. */
  lemma {:induction false} SumNonNegative(xs: seq<real>)
    requires forall k | 0 <= k < |xs| :: xs[k] >= 0.0
    ensures Sum(xs) >= 0.0
  {
    if xs != [] {
      SumNonNegative(xs[..|xs| - 1]);
    }
  }

  /** The sum of numbers in [lo, hi] lies in [n * lo, n * hi]. */
  lemma {:induction false} SumBounds(xs: seq<real>, lo: real, hi: real)
    requires forall k | 0 <= k < |xs| :: lo <= xs[k] <= hi
    ensures |xs| as real * lo <= Sum(xs) <= |xs| as real * hi
  {
    if xs != [] {
      SumBounds(xs[..|xs| - 1], lo, hi);
    }
  }

  /** The mean of a list of forgetting values that are all non-negative is non-negative. */
  lemma MeanOfNonNegative(xs: seq<real>)
    requires forall k | 0 <= k < |xs| :: xs[k] >= 0.0
    ensures MeanOrZero(xs) >= 0.0
  {
    SumNonNegative(xs);
    if xs != [] {
      DivideByCount(Sum(xs), |xs| as real);
    }
  }

  /** Every set cell holds an accuracy in [0, 1]. */
  predicate CellsAreAccuracies(m: Matrix) {
    forall i, j | 0 <= i < |m| && 0 <= j < |m[i]| && m[i][j].Some? :: 0.0 <= m[i][j].value <= 1.0
  }

  /** `compute_acc_fgt`: fails on an empty matrix or a last row with an unset cell;
      otherwise ACC is the mean of the last row and Fgt the mean, over every task but the
      last, of its peak accuracy minus its final accuracy. */
  function FinalAccFgt(m: Matrix): (r: Result<(real, real)>)
    requires IsSquare(m)
    ensures m == [] ==> r == Err(EmptyMatrix)
    ensures m != [] && !AllSet(m[|m| - 1]) ==> r == Err(FinalRowIncomplete)
    ensures r.Ok? <==> m != [] && AllSet(m[|m| - 1])
    ensures r.Ok? ==> r.value.0 == Sum(Values(m[|m| - 1])) / |m| as real
    ensures r.Ok? ==> r.value.1 >= 0.0
    ensures r.Ok? && |m| == 1 ==> r.value.1 == 0.0
    ensures r.Ok? ==> |FgtValues(m, |m| - 1, |m|, |m| - 1)| == |m| - 1
    ensures r.Ok? ==> r.value.1 == MeanOrZero(FgtValues(m, |m| - 1, |m|, |m| - 1))
  {
    if m == [] then Err(EmptyMatrix)
    else if !AllSet(m[|m| - 1]) then Err(FinalRowIncomplete)
    else
      var n := |m|;
      FgtSummary(m, n - 1);
      Ok((Sum(Values(m[n - 1])) / n as real, MeanOrZero(FgtValues(m, n - 1, n, n - 1))))
  }

  /** `compute_stage_acc_fgt`: fails unless `1 <= stage <= len(matrix)` and the first
      `stage` cells of row `stage - 1` are set; then ACC_stage is their mean and Fgt_stage
      the mean, over the tasks trained before this stage, of their peak accuracy up to
      this stage minus their accuracy at this stage. */
  function StageAccFgt(m: Matrix, stage: int): (r: Result<(real, real)>)
    requires IsSquare(m)
    ensures stage < 1 || stage > |m| ==> r == Err(StageOutOfBounds)
    ensures 1 <= stage <= |m| && !AllSet(m[stage - 1][..stage]) ==> r == Err(StageRowIncomplete)
    ensures r.Ok? <==> 1 <= stage <= |m| && AllSet(m[stage - 1][..stage])
    ensures r.Ok? ==> r.value.0 == Sum(Values(m[stage - 1][..stage])) / stage as real
    ensures r.Ok? ==> r.value.1 >= 0.0
    ensures r.Ok? && stage == 1 ==> r.value.1 == 0.0
    ensures r.Ok? ==> ForgettingDomain(m, stage - 1, stage, stage - 1)
                      && |FgtValues(m, stage - 1, stage, stage - 1)| == stage - 1
                      && r.value.1 == MeanOrZero(FgtValues(m, stage - 1, stage, stage - 1))
  {
    if stage < 1 || stage > |m| then Err(StageOutOfBounds)
    else
      var row := m[stage - 1];
      if !AllSet(row[..stage]) then Err(StageRowIncomplete)
      else
        StageDomain(m, stage);
        FgtSummary(m, stage - 1);
        Ok((Sum(Values(row[..stage])) / stage as real, MeanOrZero(FgtValues(m, stage - 1, stage, stage - 1))))
  }

  /** The forgetting list both reductions average: with the reference row `count` and the
      window ending right after it, there is one value per earlier task and their mean is
      not negative. */
  lemma FgtSummary(m: Matrix, count: nat)
    requires ForgettingDomain(m, count, count + 1, count)
    ensures |FgtValues(m, count, count + 1, count)| == count
    ensures MeanOrZero(FgtValues(m, count, count + 1, count)) >= 0.0
  {
    FgtValuesComplete(m, count, count + 1, count);
    MeanOfNonNegative(FgtValues(m, count, count + 1, count));
  }

  /** With the first `stage` cells of row `stage - 1` set, the stage reduction's forgetting
      loop reads only what is there. */
  lemma StageDomain(m: Matrix, stage: int)
    requires IsSquare(m) && 1 <= stage <= |m| && AllSet(m[stage - 1][..stage])
    ensures ForgettingDomain(m, stage - 1, stage, stage - 1)
  {
    var row := m[stage - 1];
    forall j | 0 <= j < stage - 1 ensures row[j].Some? {
      assert row[j] == row[..stage][j];
    }
  }

  /** The loop shared by both reductions: for `task_idx in range(count)`, take the task's
      history over rows `task_idx .. end-1` and, unless it is empty, append its maximum
      minus the task's value in row `ref`. */
  method ForgettingValues(m: Matrix, count: nat, end: nat, ref: nat) returns (fgtValues: seq<real>)
    requires ForgettingDomain(m, count, end, ref)
    ensures fgtValues == FgtValues(m, count, end, ref)
  {
    fgtValues := [];
    var taskIdx := 0;
    while taskIdx < count
      invariant 0 <= taskIdx <= count
      invariant fgtValues == FgtValues(m, taskIdx, end, ref)
    {
      FgtValuesStep(m, taskIdx, end, ref);
      var history := History(m, taskIdx, taskIdx, end);
      if history != [] {
        fgtValues := fgtValues + [MaxOf(history) - m[ref][taskIdx].value];
      }
      taskIdx := taskIdx + 1;
    }
  }

  /** `compute_acc_fgt`, step by step as the source computes it. */
  method ComputeAccFgt(m: Matrix) returns (r: Result<(real, real)>)
    requires IsSquare(m)
    ensures r == FinalAccFgt(m)
  {
    if |m| == 0 {
      return Err(EmptyMatrix);
    }
    var lastRow := m[|m| - 1];
    if exists k | 0 <= k < |lastRow| :: lastRow[k].None? {
      return Err(FinalRowIncomplete);
    }
    var acc := Sum(Values(lastRow)) / |lastRow| as real;
    var numTasks := |m|;
    var fgtValues := ForgettingValues(m, numTasks - 1, numTasks, numTasks - 1);
    var fgt := if fgtValues != [] then Sum(fgtValues) / |fgtValues| as real else 0.0;
    return Ok((acc, fgt));
  }

  /** `compute_stage_acc_fgt`, step by step as the source computes it. */
  method ComputeStageAccFgt(m: Matrix, stage: int) returns (r: Result<(real, real)>)
    requires IsSquare(m)
    ensures r == StageAccFgt(m, stage)
  {
    if stage < 1 || stage > |m| {
      return Err(StageOutOfBounds);
    }
    var rowIdx := stage - 1;
    var row := m[rowIdx];
    if exists k | 0 <= k < stage :: row[..stage][k].None? {
      return Err(StageRowIncomplete);
    }
    var acc := Sum(Values(row[..stage])) / stage as real;
    StageDomain(m, stage);
    var fgtValues := ForgettingValues(m, stage - 1, stage, rowIdx);
    var fgt := if fgtValues != [] then Sum(fgtValues) / |fgtValues| as real else 0.0;
    return Ok((acc, fgt));
  }

  /** The stage metrics at the last stage are the final metrics: both succeed or fail
      together, and on success give the same ACC and Fgt. */
  lemma StageAtLastIsFinal(m: Matrix)
    requires IsSquare(m) && m != []
    ensures StageAccFgt(m, |m|).Ok? == FinalAccFgt(m).Ok?
    ensures StageAccFgt(m, |m|).Ok? ==> StageAccFgt(m, |m|).value == FinalAccFgt(m).value
  {
    assert m[|m| - 1][..|m|] == m[|m| - 1];
  }

  /** The mean of accuracies in [0, 1] is in [0, 1]. */
  lemma MeanOfAccuracies(xs: seq<real>)
    requires xs != [] && forall k | 0 <= k < |xs| :: 0.0 <= xs[k] <= 1.0
    ensures 0.0 <= Sum(xs) / |xs| as real <= 1.0
  {
    var n := |xs| as real;
    assert 0.0 <= Sum(xs) <= n by {
      SumBounds(xs, 0.0, 1.0);
      assert n * 0.0 == 0.0 && n * 1.0 == n;
    }
    DivideByCount(Sum(xs), n);
  }

  /** With every recorded accuracy in [0, 1], ACC and ACC_stage are in [0, 1]. */
  lemma AccuraciesStayInUnitInterval(m: Matrix, stage: int)
    requires IsSquare(m) && CellsAreAccuracies(m)
    ensures FinalAccFgt(m).Ok? ==> 0.0 <= FinalAccFgt(m).value.0 <= 1.0
    ensures StageAccFgt(m, stage).Ok? ==> 0.0 <= StageAccFgt(m, stage).value.0 <= 1.0
  {
    if FinalAccFgt(m).Ok? {
      MeanOfAccuracies(Values(m[|m| - 1]));
    }
    if StageAccFgt(m, stage).Ok? {
      var row := m[stage - 1][..stage];
      assert forall k | 0 <= k < stage :: row[k] == m[stage - 1][k];
      MeanOfAccuracies(Values(row));
    }
  }

  /** A three-task run: task 0 at 0.9 after stage 1; 0.85 and 0.8 after stage 2; 0.80,
      0.78 and 0.9 after stage 3. */
  function ExampleRun(): Matrix {
    [[Some(0.9), None, None],
     [Some(0.85), Some(0.8), None],
     [Some(0.80), Some(0.78), Some(0.9)]]
  }

  /** The histories the example run's forgetting values are taken from. */
  lemma ExampleHistories()
    ensures History(ExampleRun(), 0, 0, 2) == [0.9, 0.85]
    ensures History(ExampleRun(), 0, 0, 3) == [0.9, 0.85, 0.80]
    ensures History(ExampleRun(), 1, 1, 3) == [0.8, 0.78]
  {
    var m := ExampleRun();
    assert History(m, 0, 0, 1) == [0.9];
    assert History(m, 1, 1, 2) == [0.8];
  }

  /** Their maxima. */
  lemma ExampleMaxima()
    ensures MaxOf([0.9, 0.85]) == 0.9
    ensures MaxOf([0.9, 0.85, 0.80]) == 0.9
    ensures MaxOf([0.8, 0.78]) == 0.8
  {
    assert [0.9, 0.85][..1] == [0.9];
    assert [0.9, 0.85, 0.80][..2] == [0.9, 0.85];
    assert [0.8, 0.78][..1] == [0.8];
  }

  /** The forgetting values of the example run at the final stage: task 0 dropped from
      0.9 to 0.80 and task 1 from 0.8 to 0.78. */
  lemma ExampleFinalForgetting()
    ensures IsSquare(ExampleRun())
    ensures FgtValues(ExampleRun(), 2, 3, 2) == [0.9 - 0.80, 0.8 - 0.78]
  {
    var m := ExampleRun();
    ExampleHistories();
    ExampleMaxima();
    assert ForgettingDomain(m, 2, 3, 2);
    assert Forgetting(m, 0, 3, 2) == 0.9 - 0.80;
    assert FgtValues(m, 1, 3, 2) == [0.9 - 0.80];
    assert Forgetting(m, 1, 3, 2) == 0.8 - 0.78;
    assert FgtValues(m, 2, 3, 2) == FgtValues(m, 1, 3, 2) + [Forgetting(m, 1, 3, 2)];
  }

  /** The two final forgetting values add up to 0.12. */
  lemma ExampleFinalForgettingSum()
    ensures Sum([0.9 - 0.80, 0.8 - 0.78]) == 0.12
  {
    var f := [0.9 - 0.80, 0.8 - 0.78];
    assert f[..1] == [0.9 - 0.80];
    assert Sum([0.9 - 0.80]) == 0.1 by { assert [0.9 - 0.80][..0] == []; }
  }

  /** The forgetting values of the example run at stage 2: task 0 dropped from 0.9 to 0.85. */
  lemma ExampleStageForgetting()
    ensures IsSquare(ExampleRun())
    ensures FgtValues(ExampleRun(), 1, 2, 1) == [0.9 - 0.85]
    ensures Sum(FgtValues(ExampleRun(), 1, 2, 1)) == 0.05
  {
    var m := ExampleRun();
    ExampleHistories();
    ExampleMaxima();
    assert ForgettingDomain(m, 1, 2, 1);
    assert Forgetting(m, 0, 2, 1) == 0.9 - 0.85;
    assert Sum([0.9 - 0.85]) == 0.05 by { assert [0.9 - 0.85][..0] == []; }
  }

  /** The sums of the rows the example run's ACC values are taken from. */
  lemma ExampleRows()
    ensures IsSquare(ExampleRun())
    ensures AllSet(ExampleRun()[2]) && Sum(Values(ExampleRun()[2])) == 2.48
    ensures AllSet(ExampleRun()[1][..2]) && Sum(Values(ExampleRun()[1][..2])) == 1.65
  {
    var m := ExampleRun();
    var last := Values(m[2]);
    assert last == [0.80, 0.78, 0.9];
    assert last[..2] == [0.80, 0.78];
    assert last[..2][..1] == [0.80];
    assert Sum([0.80]) == 0.80 by { assert [0.80][..0] == []; }
    assert Sum(last[..2]) == 1.58;
    assert m[1][..2] == [Some(0.85), Some(0.8)];
    var row := Values(m[1][..2]);
    assert row == [0.85, 0.8];
    assert row[..1] == [0.85];
    assert Sum([0.85]) == 0.85 by { assert [0.85][..0] == []; }
  }

  /** On the example run the final metrics are ACC = (0.80 + 0.78 + 0.9) / 3 and
      Fgt = ((0.9 - 0.80) + (0.8 - 0.78)) / 2 = 0.06. */
  lemma ExampleFinalMetrics()
    ensures IsSquare(ExampleRun())
    ensures FinalAccFgt(ExampleRun()) == Ok((2.48 / 3.0, 0.06))
  {
    ExampleFinalForgetting();
    ExampleFinalForgettingSum();
    ExampleRows();
  }

  /** On the example run the metrics as of stage 2 are ACC_stage = (0.85 + 0.8) / 2 and
      Fgt_stage = 0.9 - 0.85 = 0.05. */
  lemma ExampleStageMetrics()
    ensures IsSquare(ExampleRun())
    ensures StageAccFgt(ExampleRun(), 2) == Ok((0.825, 0.05))
  {
    ExampleStageForgetting();
    ExampleRows();
  }
}
