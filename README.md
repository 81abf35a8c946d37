# Continual-learning accuracy bookkeeping, modelled in Dafny

This project models the evaluation tracker of a continual-learning run. A model is
trained on an ordered list of tasks, one per stage. After stage `s` it is evaluated on
the tasks, and the accuracies go into row `s - 1` of an N×N accuracy matrix (N = number
of tasks). An unset cell is `None`. The matrix lives in one JSON file per run. Each stage
is a separate invocation that reads the file, checks that the task list is the same
ordered list as before, overwrites the cells it has results for, and writes the file back.
From the matrix the tracker derives two metrics:

- ACC: the mean accuracy of a row;
- Fgt (forgetting): the mean, over the earlier tasks, of the best accuracy a task ever had
  minus its accuracy at the reference stage.

There are two versions of each metric: one for the final stage and one for any
intermediate stage.

Files:

- `common.dfy` (`Common`): `Option`, the errors the Python code raises, and `Result`.
- `text.dfy` (`Text`): the string operations the code uses (`lower`, `strip`, `split(",")`,
  whitespace `split()`, `join`), with the lemmas that relate them.
- `answer_match.dfy` (`AnswerMatch`): `normalize_answer`, `exact_match`, `calculate_accuracy`.
- `matrix_store.dfy` (`MatrixStore`): `init_accuracy_matrix`, `load_accuracy_matrix` and
  `update_accuracy_matrix`. The file is modelled as `Option<Container>`: `None` means the
  file does not exist. An update takes the file's content and returns the content
  afterwards.
- `metrics.dfy` (`Metrics`): `compute_acc_fgt` and `compute_stage_acc_fgt`. Each has a
  specification function (`FinalAccFgt`, `StageAccFgt`) and a method that computes it step
  by step, sharing one forgetting loop.
- `continual_eval.dfy` (`ContinualEval`): `parse_tasks`, `load_results_json`,
  `compute_exact_match_from_predictions`, and the steps of `main` from line 84 on.

Observations the proofs establish:

- Both reductions contain the branch `if not history: continue`, and it can never fire.
  Under each reduction's own precondition, every task's window contains the reference
  row's cell, and that cell is set. So Fgt averages over exactly N − 1 tasks (or
  `stage − 1` tasks), and it is never negative (`Metrics.FgtValuesComplete`).
- At the last stage, `main` either emits all four metrics or fails. At an earlier
  stage it emits just `ACC_stage` and `Fgt_stage` (`ContinualEval.StageMetrics`).
- The one failure that can happen after the matrix file has been rewritten is an
  incomplete stage row (`ContinualEval.EvaluateStage`).

Two points about the code:

- The code never checks that an accuracy lies in [0, 1], so the model allows any real.
  `Metrics.AccuraciesStayInUnitInterval` states what follows when the range does hold.
- The code skips tasks without history (`if not history: continue`), but, as shown
  above, that branch cannot fire.

## Model

| member | source | states |
|---|---|---|
| `AnswerMatch.NormalizeAnswer` | evaluation/continual_metrics.py:10-14 | the normalised answer is never longer than the text |
| `AnswerMatch.NormalizeSkipsStrip` | evaluation/continual_metrics.py:10-14 | stripping before blanking the punctuation changes nothing, because splitting on whitespace drops what `strip` removes |
| `AnswerMatch.NormalizeIgnoresCase` | evaluation/continual_metrics.py:10-14 | lower-casing the text first gives the same answer, for every text |
| `AnswerMatch.NormalizeIgnoresPunctuation` | evaluation/continual_metrics.py:10-14 | replacing any one character that is neither a word character nor whitespace by a blank gives the same answer, for every text |
| `AnswerMatch.NormalizeIgnoresRepeatedSpace` | evaluation/continual_metrics.py:10-14 | repeating any one whitespace character gives the same answer, for every text |
| `AnswerMatch.NormalizeIgnoresWhitespaceKind` | evaluation/continual_metrics.py:10-14 | replacing any one whitespace character by a blank gives the same answer, for every text |
| `AnswerMatch.NormalizeIgnoresLeadingSpace` | evaluation/continual_metrics.py:10-14 | a whitespace character in front of the text gives the same answer, for every text |
| `AnswerMatch.NormalizeIgnoresTrailingSpace` | evaluation/continual_metrics.py:10-14 | a whitespace character after the text gives the same answer, for every text |
| `AnswerMatch.NormalizeAnswerShape` | evaluation/continual_metrics.py:10-14 | the normalised answer is lower-case word characters in runs separated by single blanks, with no blank at either end |
| `AnswerMatch.NormalizeIdempotent` | evaluation/continual_metrics.py:10-14 | normalising twice is normalising once |
| `AnswerMatch.ExactMatch` | evaluation/continual_metrics.py:17-18 | the score is 0 or 1, and it is 1 exactly when both strings normalise to the same answer |
| `AnswerMatch.ExactMatchSymmetric` | evaluation/continual_metrics.py:17-18 | swapping prediction and reference does not change the score |
| `AnswerMatch.ExactMatchOfNormalized` | evaluation/continual_metrics.py:17-18 | normalising the prediction beforehand never changes its score |
| `AnswerMatch.ExactMatchExample` | evaluation/continual_metrics.py:10-18 | example: "The Cat!" matches "the cat" |
| `AnswerMatch.CalculateAccuracy` | evaluation/continual_metrics.py:21-24 | no scores give 0.0; otherwise the result times the count is the sum of the scores; for 0/1 scores the result lies in [0, 1] and is 1 exactly when every score is 1 |
| `MatrixStore.InitAccuracyMatrix` | evaluation/continual_metrics.py:38-41 | the container keeps the given task list and has N rows of N cells, every cell unset |
| `MatrixStore.LoadAccuracyMatrix` | evaluation/continual_metrics.py:44-50 | with no file: exactly the initial matrix; with a file: its container when the stored task list equals the current one as an ordered sequence, a task-list mismatch error otherwise |
| `MatrixStore.UpdatedContainer` | evaluation/continual_metrics.py:53-69 | a task-list mismatch or a stage outside [1, N] is an error; otherwise the cell (stage − 1, j) holds the result for `tasks[j]` when there is one, every other cell is unchanged, and result keys outside the task list are ignored |
| `MatrixStore.Persist` | evaluation/continual_metrics.py:68 | the file holds the new container after a successful update and is untouched after an error; a well-formed file stays well-formed |
| `MatrixStore.UpdateAccuracyMatrix` | evaluation/continual_metrics.py:53-69 | the column loop computes exactly `UpdatedContainer`; the file is rewritten with it on success and left untouched on either error |
| `MatrixStore.UpdateIdempotent` | evaluation/continual_metrics.py:53-69 | repeating the same update returns the same container and leaves the same file |
| `MatrixStore.UpdateMerges` | evaluation/continual_metrics.py:63-66 | two updates of the same stage equal one update with the merged results, where the later value wins |
| `MatrixStore.UpdatesOfDifferentStagesCommute` | evaluation/continual_metrics.py:53-69 | updates of two different stages leave the same file in either order, in or out of range; when both stages are in range, the second update also returns the same container in either order |
| `Metrics.MaxOf` | evaluation/continual_metrics.py:86 | `max(history)` is an element of the history that no element exceeds |
| `Metrics.History` | evaluation/continual_metrics.py:83 | every set cell of the column inside the window is in the history |
| `Metrics.HistoryElements` | evaluation/continual_metrics.py:83 | every value in the history is a set cell of the column inside the window |
| `Metrics.HistoryInRowOrder` | evaluation/continual_metrics.py:83 | the history lists the set cells in row order: a window's history is that of its first rows followed by that of the rest, and one row contributes its cell's value exactly when the cell is set |
| `Metrics.Forgetting` | evaluation/continual_metrics.py:86 | a task's forgetting plus its reference accuracy is a value of its history that no history value exceeds, and it is at least 0 when the reference row lies inside the window |
| `Metrics.FgtValues` | evaluation/continual_metrics.py:80-86 | the loop appends at most one forgetting value per task |
| `Metrics.FgtValuesComplete` | evaluation/continual_metrics.py:80-86 | when the reference row lies inside every task's window, no task is skipped: there is one forgetting value per task, in task order, and each is at least 0 |
| `Metrics.FinalAccFgt` | evaluation/continual_metrics.py:72-88 | an empty matrix or an unset cell in the last row is an error; otherwise ACC is the mean of the last row and Fgt is the mean of the N − 1 forgetting values, with Fgt ≥ 0 and Fgt = 0 for a single task |
| `Metrics.StageAccFgt` | evaluation/continual_metrics.py:91-107 | a stage outside [1, N] or an unset cell among the first `stage` cells of row `stage − 1` is an error; otherwise ACC_stage is the mean of those cells and Fgt_stage is the mean of the `stage − 1` forgetting values, with Fgt_stage ≥ 0 and Fgt_stage = 0 at stage 1 |
| `Metrics.ForgettingValues` | evaluation/continual_metrics.py:80-86 | the loop that appends to `fgt_values` computes exactly `FgtValues` |
| `Metrics.ComputeAccFgt` | evaluation/continual_metrics.py:72-88 | the step-by-step computation returns exactly `FinalAccFgt` |
| `Metrics.ComputeStageAccFgt` | evaluation/continual_metrics.py:91-107 | the step-by-step computation returns exactly `StageAccFgt` |
| `Metrics.StageAtLastIsFinal` | evaluation/continual_metrics.py:72-107 | at stage N the stage metrics succeed exactly when the final metrics do, and they are equal |
| `Metrics.AccuraciesStayInUnitInterval` | evaluation/continual_metrics.py:78 | when every set cell is in [0, 1], ACC and ACC_stage are in [0, 1] |
| `Metrics.ExampleFinalMetrics` | evaluation/continual_metrics.py:72-88 | on a three-task run, ACC = (0.80 + 0.78 + 0.9) / 3 and Fgt = 0.06 |
| `Metrics.ExampleStageMetrics` | evaluation/continual_metrics.py:91-107 | on the same run at stage 2, ACC_stage = 0.825 and Fgt_stage = 0.05 |
| `ContinualEval.ParseTasks` | evaluation/continual_eval.py:18-19 | every parsed task is non-empty, contains no comma and has no whitespace at either end |
| `ContinualEval.ParseTasksOfJoined` | evaluation/continual_eval.py:18-19 | parsing the comma-join of such task names gives back the same list, in order |
| `ContinualEval.ParseTasksStable` | evaluation/continual_eval.py:18-19 | re-parsing the comma-join of a parsed list changes nothing |
| `ContinualEval.LoadResultsJson` | evaluation/continual_eval.py:22-26 | a document that is not an object is rejected; an object is returned as the mapping |
| `ContinualEval.AllHaveFieldsMeaning` | evaluation/continual_eval.py:42-45 | the record check passes exactly when every record has both the answer key and the prediction key |
| `ContinualEval.ScoresMeaning` | evaluation/continual_eval.py:46 | one 0/1 score per record, 1 exactly when the prediction and the answer normalise alike |
| `ContinualEval.TaskAccuracy` | evaluation/continual_eval.py:38-47 | a missing predictions file is that error, and every error is a missing file or a missing field of that task |
| `ContinualEval.TaskAccuracyMeaning` | evaluation/continual_eval.py:37-47 | a missing file and a record without the answer key or the prediction key are errors; otherwise the accuracy is the mean exact-match score of the records, in [0, 1] |
| `ContinualEval.PredictionResults` | evaluation/continual_eval.py:36-48 | on success every key of the results is one of the tasks |
| `ContinualEval.PredictionResultsMeaning` | evaluation/continual_eval.py:36-48 | success exactly when every task succeeds; the result then maps each task, and nothing else, to its accuracy; otherwise the error is that of the first failing task |
| `ContinualEval.PredictionErrorPersists` | evaluation/continual_eval.py:37-47 | once the tasks processed so far have failed, the remaining tasks do not change the error |
| `ContinualEval.ScoreRecords` | evaluation/continual_eval.py:39-46 | the record loop yields the scores exactly when every record has both keys |
| `ContinualEval.ComputeExactMatchFromPredictions` | evaluation/continual_eval.py:29-48 | the task loop computes exactly `PredictionResults` |
| `ContinualEval.SelectedResults` | evaluation/continual_eval.py:88-99 | the results JSON takes precedence over the predictions directory, and giving neither is the only way to get the no-source error |
| `ContinualEval.StageMetrics` | evaluation/continual_eval.py:104-111 | the emitted keys are either {ACC_stage, Fgt_stage} or all four; ACC and Fgt are emitted exactly at stage N with a complete last row; at stage N all four are emitted; the values are those of the two reductions and both forgetting values are ≥ 0 |
| `ContinualEval.BuildMetrics` | evaluation/continual_eval.py:104-111 | building the metrics dictionary step by step gives exactly `StageMetrics` |
| `ContinualEval.EvaluateStage` | evaluation/continual_eval.py:84-111 | an empty task list and a failing or missing results source fail before the matrix file is touched; otherwise the file is updated as by `update_accuracy_matrix` and the output is the metrics of the updated matrix; the only failure after a rewrite is an incomplete stage row |

## Left out

- File and JSON I/O are not modelled: `load_json`, `save_json`, `os.path.exists`,
  `os.makedirs`, reading `jsonlines`, and the exact JSON layout. The matrix file is an
  `Option<Container>` value. The results JSON is a `ResultsDoc`. The predictions directory
  is a map from file name (`task + suffix`) to that file's records. A results file that is
  missing or is not valid JSON, and a predictions line that is not valid JSON, are not
  modelled.
- `MatrixStore.Persist`: a failing write is not modelled; saving always succeeds. For
  example, `save_json` raises when the matrix path has no directory part, because
  `os.makedirs("")` fails (evaluation/continual_metrics.py:33).
- The command line, printing, saving the metrics and the `__main__` entry are not
  modelled. `main` is modelled from line 84 on, with the parsed options as an `Args`
  value. It returns the metrics instead of printing or saving them.
- `datalength.py` is not part of this model. It is a descriptive-statistics script with
  no state.
- Floating point is not modelled: accuracies are `real`, so there is no rounding.
- Unicode character classes are not modelled. `\w`, `\s`/`isspace` and `lower` are
  replaced by fixed stand-ins (`Text.IsWordChar`, `Text.IsSpace`, `Text.Lower`). Word
  characters are ASCII letters, digits and `_`. Whitespace is the ASCII whitespace
  characters plus U+001C..U+001F, U+0085 and U+00A0. `Lower` maps A-Z only. The
  all-input normalisation lemmas rely only on five facts about these stand-ins, each proved as a
  lemma (`Text.WordCharIsNotSpace`, `Text.LowerKeepsClasses`, `Text.PlainBlank`):
  - a word character is never whitespace;
  - lowering keeps a character's class;
  - lowering twice is lowering once;
  - the blank is whitespace;
  - lowering keeps the blank.
  The examples about "The Cat!" also use the classes of the particular characters in it.
  Characters whose `lower` is longer than one character are not modelled.
- Type conversions are not modelled. `str(key)` and `float(value)` in `load_results_json`
  and `str(...)` around record fields are left out. The model's keys and record fields are
  already strings, and its values already numbers.
- Concurrent writers to the same matrix file are not modelled. The code has no locking.
- `MatrixStore.UpdateAccuracyMatrix`, `MatrixStore.UpdatedContainer` and
  `ContinualEval.EvaluateStage` require a stored container to be N×N for its N tasks.
  Every file this code writes has that shape. A hand-edited file with another shape is
  not modelled. On such a file the Python code may fail, or it may update the file
  without error: a stored matrix larger than N×N, for example, is updated without error.
- `Metrics.FinalAccFgt`, `Metrics.StageAccFgt`, `Metrics.ComputeAccFgt` and
  `Metrics.ComputeStageAccFgt` require a square matrix, as the store always produces.
  Ragged matrices are not modelled. On one, the Python code may fail or may compute on
  cells outside the N×N square: `compute_acc_fgt([[0.9, None], [0.8]])` returns
  (0.8, 0.9 − 0.8).
