/** The evaluation driver of evaluation/continual_eval.py: parsing the task list, loading
    one stage's results (from a results JSON or from per-task prediction files) and the
    sequence of steps `main` performs after argument parsing.

    Command-line parsing and file reading are abstracted: the parsed arguments are an
    `Args` value, the content of the results JSON is a `ResultsDoc`, the prediction
    directory is a map from file name to the records of that file, and the matrix file is
    the `Option<Container>` of the store. */
module ContinualEval {
  import opened Common
  import opened Text
  import opened AnswerMatch
  import opened MatrixStore
  import opened Metrics

  // ---------------------------------------------------------------- parse_tasks

  /** A task name as `parse_tasks` produces it: non-empty, without a comma, and without
      whitespace at either end. */
  predicate IsTaskName(t: string) {
    t != [] && ',' !in t && !IsSpace(t[0]) && !IsSpace(t[|t| - 1])
  }

  /** `[f.strip() for f in fields if f.strip()]` */
  function StrippedNonEmpty(fields: seq<string>): seq<string> {
    if fields == [] then []
    else
      var t := Strip(fields[0]);
      (if t != [] then [t] else []) + StrippedNonEmpty(fields[1..])
  }

  /** Stripping comma-free fields and dropping the empty ones leaves only task names. */
  lemma {:induction false} StrippedFieldsAreNames(fields: seq<string>)
    requires forall i | 0 <= i < |fields| :: ',' !in fields[i]
    ensures forall i | 0 <= i < |StrippedNonEmpty(fields)| :: IsTaskName(StrippedNonEmpty(fields)[i])
  {
    if fields != [] {
      StrippedFieldsAreNames(fields[1..]);
      StripKeepsAbsent(fields[0], ',');
    }
  }

  /** `parse_tasks`: the comma-separated fields of `s`, stripped, without the empty ones. */
  function ParseTasks(s: string): (tasks: seq<string>)
    ensures forall i | 0 <= i < |tasks| :: IsTaskName(tasks[i])
  {
    SplitJoin(s, ',');
    StrippedFieldsAreNames(Split(s, ','));
    StrippedNonEmpty(Split(s, ','))
  }

  /** Task names survive stripping and are kept. */
  lemma {:induction false} StrippedNonEmptyOfNames(tasks: seq<string>)
    requires forall i | 0 <= i < |tasks| :: IsTaskName(tasks[i])
    ensures StrippedNonEmpty(tasks) == tasks
  {
    if tasks != [] {
      StripOfTrimmed(tasks[0]);
      StrippedNonEmptyOfNames(tasks[1..]);
    }
  }

  /** Joining task names with commas and parsing the result gives the same task list. */
  lemma ParseTasksOfJoined(tasks: seq<string>)
    requires forall i | 0 <= i < |tasks| :: IsTaskName(tasks[i])
    ensures ParseTasks(JoinWith(tasks, ',')) == tasks
  {
    if tasks == [] {
      assert Split("", ',') == [""];
      StripOfTrimmed("");
    } else {
      JoinSplit(tasks, ',');
      StrippedNonEmptyOfNames(tasks);
    }
  }

  /** Parsing is stable: writing the parsed list back as a comma-separated string and
      parsing it again changes nothing. */
  lemma ParseTasksStable(s: string)
    ensures ParseTasks(JoinWith(ParseTasks(s), ',')) == ParseTasks(s)
  {
    ParseTasksOfJoined(ParseTasks(s));
  }

  // ---------------------------------------------------------------- load_results_json

  /** The content of a results JSON file: an object mapping keys to numbers, or any other
      JSON value. */
  datatype ResultsDoc = JsonObject(entries: map<string, real>) | NotAnObject

  /** `load_results_json`: the mapping, or an error when the document is not an object. */
  function LoadResultsJson(doc: ResultsDoc): (r: Result<map<string, real>>)
    ensures r.Ok? <==> doc.JsonObject?
    ensures r.Ok? ==> r.value == doc.entries
    ensures r.Err? ==> r.error == ResultsNotMapping
  {
    match doc
    case JsonObject(entries) => Ok(entries)
    case NotAnObject => Err(ResultsNotMapping)
  }

  // ---------------------------------------------------------------- compute_exact_match_from_predictions

  /** One line of a predictions file: a JSON object with string values. */
  type Record = map<string, string>

  /** Every record has both the answer key and the prediction key, checked from the last
      record back (`AllHaveFieldsMeaning` states it record by record). */
  predicate AllHaveFields(records: seq<Record>, answerKey: string, predictionKey: string)
    decreases |records|
  {
    records == []
    || (answerKey in records[|records| - 1] && predictionKey in records[|records| - 1]
        && AllHaveFields(records[..|records| - 1], answerKey, predictionKey))
  }

  /** `AllHaveFields` holds exactly when each record has both keys. */
  lemma {:induction false} AllHaveFieldsMeaning(records: seq<Record>, answerKey: string, predictionKey: string)
    ensures AllHaveFields(records, answerKey, predictionKey)
        <==> forall k | 0 <= k < |records| :: answerKey in records[k] && predictionKey in records[k]
    decreases |records|
  {
    if records != [] {
      var init := records[..|records| - 1];
      AllHaveFieldsMeaning(init, answerKey, predictionKey);
      assert forall k | 0 <= k < |init| :: init[k] == records[k];
    }
  }

  /** The exact-match score of each record, in order (`ScoresMeaning`). */
  function Scores(records: seq<Record>, answerKey: string, predictionKey: string): (scores: seq<int>)
    requires AllHaveFields(records, answerKey, predictionKey)
    ensures |scores| == |records|
    decreases |records|
  {
    if records == [] then []
    else
      var last := records[|records| - 1];
      Scores(records[..|records| - 1], answerKey, predictionKey) + [ExactMatch(last[predictionKey], last[answerKey])]
  }

  /** Record `k` has both keys and gets score 1 exactly when its prediction and its answer
      normalise alike, 0 otherwise. */
  lemma {:induction false} ScoresMeaning(records: seq<Record>, answerKey: string, predictionKey: string)
    requires AllHaveFields(records, answerKey, predictionKey)
    ensures AllBinary(Scores(records, answerKey, predictionKey))
    ensures forall k | 0 <= k < |records| ::
      answerKey in records[k] && predictionKey in records[k]
      && Scores(records, answerKey, predictionKey)[k] == ExactMatch(records[k][predictionKey], records[k][answerKey])
    decreases |records|
  {
    if records != [] {
      var init := records[..|records| - 1];
      ScoresMeaning(init, answerKey, predictionKey);
      var shorter := Scores(init, answerKey, predictionKey);
      var scores := Scores(records, answerKey, predictionKey);
      forall k | 0 <= k < |init|
        ensures scores[k] == shorter[k] && records[k] == init[k]
      {
      }
    }
  }

  /** One task's accuracy: its file `task + suffix` must exist and every record must have
      both keys; the accuracy is the mean exact-match score of its records. */
  function TaskAccuracy(files: map<string, seq<Record>>, task: string, suffix: string,
                        answerKey: string, predictionKey: string): (r: Result<real>)
    ensures task + suffix !in files ==> r == Err(MissingPredictionFile(task))
    ensures r.Err? ==> r.error == MissingPredictionFile(task) || r.error == MissingField(task)
  {
    if task + suffix !in files then Err(MissingPredictionFile(task))
    else
      var records := files[task + suffix];
      if !AllHaveFields(records, answerKey, predictionKey) then Err(MissingField(task))
      else Ok(CalculateAccuracy(Scores(records, answerKey, predictionKey)))
  }

  /** A task fails for a missing file or a record without both keys, and only then; its
      accuracy is the mean exact-match score of its records and lies in [0, 1]. */
  lemma TaskAccuracyMeaning(files: map<string, seq<Record>>, task: string, suffix: string,
                            answerKey: string, predictionKey: string)
    ensures var r := TaskAccuracy(files, task, suffix, answerKey, predictionKey);
      && (task + suffix !in files ==> r == Err(MissingPredictionFile(task)))
      && (r.Ok? <==> (task + suffix in files && AllHaveFields(files[task + suffix], answerKey, predictionKey)))
      && (r.Err? && task + suffix in files ==> r == Err(MissingField(task)))
      && (r.Ok? ==> 0.0 <= r.value <= 1.0
                    && r.value == CalculateAccuracy(Scores(files[task + suffix], answerKey, predictionKey)))
  {
    if task + suffix in files && AllHaveFields(files[task + suffix], answerKey, predictionKey) {
      ScoresMeaning(files[task + suffix], answerKey, predictionKey);
    }
  }

  /** The results of the prediction path over `tasks`, processed in order: the first task
      whose accuracy cannot be computed decides the error (`PredictionResultsMeaning`). */
  function PredictionResults(files: map<string, seq<Record>>, tasks: seq<string>, suffix: string,
                             answerKey: string, predictionKey: string): (r: Result<map<string, real>>)
    ensures r.Ok? ==> forall t | t in r.value :: t in tasks
    decreases |tasks|
  {
    if tasks == [] then Ok(map[])
    else
      var task := tasks[|tasks| - 1];
      match PredictionResults(files, tasks[..|tasks| - 1], suffix, answerKey, predictionKey)
      case Err(e) => Err(e)
      case Ok(results) =>
        match TaskAccuracy(files, task, suffix, answerKey, predictionKey)
        case Err(e) => Err(e)
        case Ok(acc) => Ok(results[task := acc])
  }

  /** The per-task results of the prediction path, one per task, in task order. */
  function TaskAccuracies(files: map<string, seq<Record>>, tasks: seq<string>, suffix: string,
                          answerKey: string, predictionKey: string): (accs: seq<Result<real>>)
    ensures |accs| == |tasks|
    ensures forall i | 0 <= i < |tasks| :: accs[i] == TaskAccuracy(files, tasks[i], suffix, answerKey, predictionKey)
  {
    seq(|tasks|, i requires 0 <= i < |tasks| => TaskAccuracy(files, tasks[i], suffix, answerKey, predictionKey))
  }

  /** Folds per-task results in task order: the first error wins; otherwise every task is
      mapped to its value. `PredictionResults` is this fold over `TaskAccuracies`. */
  function Collect(tasks: seq<string>, accs: seq<Result<real>>): Result<map<string, real>>
    requires |accs| == |tasks|
    decreases |tasks|
  {
    if tasks == [] then Ok(map[])
    else
      match Collect(tasks[..|tasks| - 1], accs[..|tasks| - 1])
      case Err(e) => Err(e)
      case Ok(results) =>
        match accs[|tasks| - 1]
        case Err(e) => Err(e)
        case Ok(acc) => Ok(results[tasks[|tasks| - 1] := acc])
  }

  lemma {:induction false} PredictionResultsIsCollect(files: map<string, seq<Record>>, tasks: seq<string>, suffix: string,
                                                      answerKey: string, predictionKey: string)
    ensures PredictionResults(files, tasks, suffix, answerKey, predictionKey)
         == Collect(tasks, TaskAccuracies(files, tasks, suffix, answerKey, predictionKey))
    decreases |tasks|
  {
    if tasks != [] {
      var init := tasks[..|tasks| - 1];
      PredictionResultsIsCollect(files, init, suffix, answerKey, predictionKey);
      assert TaskAccuracies(files, tasks, suffix, answerKey, predictionKey)[..|tasks| - 1]
          == TaskAccuracies(files, init, suffix, answerKey, predictionKey);
    }
  }

  /** The fold succeeds exactly when every result is a success. */
  lemma {:induction false} CollectSucceeds(tasks: seq<string>, accs: seq<Result<real>>)
    requires |accs| == |tasks|
    ensures Collect(tasks, accs).Ok? <==> forall i | 0 <= i < |tasks| :: accs[i].Ok?
    decreases |tasks|
  {
    if tasks != [] {
      var n := |tasks| - 1;
      CollectSucceeds(tasks[..n], accs[..n]);
      assert forall i | 0 <= i < n :: accs[..n][i] == accs[i];
    }
  }

  /** A successful fold has exactly the tasks as its keys. */
  lemma {:induction false} CollectKeys(tasks: seq<string>, accs: seq<Result<real>>)
    requires |accs| == |tasks|
    ensures var r := Collect(tasks, accs);
      r.Ok? ==> forall t :: t in r.value <==> t in tasks
    decreases |tasks|
  {
    if tasks != [] {
      var n := |tasks| - 1;
      var init := tasks[..n];
      CollectKeys(init, accs[..n]);
      assert forall t :: t in tasks <==> t in init || t == tasks[n];
    }
  }

  /** A successful fold maps each task to its value, provided a task that occurs twice
      has the same result both times. */
  lemma {:induction false} CollectValues(tasks: seq<string>, accs: seq<Result<real>>)
    requires |accs| == |tasks|
    requires forall i, j | 0 <= i < |tasks| && 0 <= j < |tasks| && tasks[i] == tasks[j] :: accs[i] == accs[j]
    ensures var r := Collect(tasks, accs);
      r.Ok? ==> forall i | 0 <= i < |tasks| ::
        accs[i].Ok? && tasks[i] in r.value && r.value[tasks[i]] == accs[i].value
    decreases |tasks|
  {
    if tasks != [] {
      var n := |tasks| - 1;
      var init := tasks[..n];
      var r := Collect(tasks, accs);
      if r.Ok? {
        CollectSucceeds(tasks, accs);
        assert forall i | 0 <= i < n :: init[i] == tasks[i] && accs[..n][i] == accs[i];
        CollectValues(init, accs[..n]);
        var prev := Collect(init, accs[..n]).value;
        assert r.value == prev[tasks[n] := accs[n].value];
        forall i | 0 <= i < |tasks|
          ensures tasks[i] in r.value && r.value[tasks[i]] == accs[i].value
        {
          if tasks[i] != tasks[n] {
            assert init[i] in prev && prev[init[i]] == accs[..n][i].value;
          }
        }
      }
    }
  }

  /** A failing fold fails with the error of the first failing result. */
  lemma {:induction false} CollectFirstError(tasks: seq<string>, accs: seq<Result<real>>)
    requires |accs| == |tasks|
    ensures var r := Collect(tasks, accs);
      r.Err? ==> exists i | 0 <= i < |tasks| :: accs[i] == Err(r.error) && forall k | 0 <= k < i :: accs[k].Ok?
    decreases |tasks|
  {
    if tasks != [] {
      var n := |tasks| - 1;
      if Collect(tasks[..n], accs[..n]).Err? {
        CollectFirstError(tasks[..n], accs[..n]);
      } else {
        CollectSucceeds(tasks[..n], accs[..n]);
      }
    }
  }

  /** Both halves together: success exactly when every task succeeds, with each task mapped
      to its accuracy; otherwise the error of the first failing task. */
  lemma PredictionResultsMeaning(files: map<string, seq<Record>>, tasks: seq<string>, suffix: string,
                                 answerKey: string, predictionKey: string)
    ensures var r := PredictionResults(files, tasks, suffix, answerKey, predictionKey);
      (r.Ok? <==> forall i | 0 <= i < |tasks| :: TaskAccuracy(files, tasks[i], suffix, answerKey, predictionKey).Ok?)
      && (r.Ok? ==> forall t :: t in r.value <==> t in tasks)
      && (r.Ok? ==> forall i | 0 <= i < |tasks| ::
            r.value[tasks[i]] == TaskAccuracy(files, tasks[i], suffix, answerKey, predictionKey).value)
      && (r.Err? ==> exists i | 0 <= i < |tasks| ::
            TaskAccuracy(files, tasks[i], suffix, answerKey, predictionKey) == Err(r.error)
            && forall k | 0 <= k < i :: TaskAccuracy(files, tasks[k], suffix, answerKey, predictionKey).Ok?)
  {
    PredictionResultsIsCollect(files, tasks, suffix, answerKey, predictionKey);
    var accs := TaskAccuracies(files, tasks, suffix, answerKey, predictionKey);
    CollectSucceeds(tasks, accs);
    CollectKeys(tasks, accs);
    CollectValues(tasks, accs);
    CollectFirstError(tasks, accs);
  }

  /** Once a prefix of the task list fails, the whole list fails with the same error. */
  lemma {:induction false} PredictionErrorPersists(files: map<string, seq<Record>>, tasks: seq<string>, n: nat,
                                                   suffix: string, answerKey: string, predictionKey: string)
    requires n <= |tasks|
    requires PredictionResults(files, tasks[..n], suffix, answerKey, predictionKey).Err?
    ensures PredictionResults(files, tasks, suffix, answerKey, predictionKey)
         == PredictionResults(files, tasks[..n], suffix, answerKey, predictionKey)
    decreases |tasks|
  {
    if n < |tasks| {
      var init := tasks[..|tasks| - 1];
      assert init[..n] == tasks[..n];
      PredictionErrorPersists(files, init, n, suffix, answerKey, predictionKey);
    } else {
      assert tasks[..n] == tasks;
    }
  }

  /** `compute_exact_match_from_predictions`: for each task in order, score every record
      of its file by exact match and store the mean under the task's name; a missing file
      or a record without both keys stops the computation. */
  method ComputeExactMatchFromPredictions(files: map<string, seq<Record>>, tasks: seq<string>,
                                          answerKey: string, predictionKey: string, suffix: string)
    returns (r: Result<map<string, real>>)
    ensures r == PredictionResults(files, tasks, suffix, answerKey, predictionKey)
  {
    var results: map<string, real> := map[];
    var i := 0;
    while i < |tasks|
      invariant 0 <= i <= |tasks|
      invariant PredictionResults(files, tasks[..i], suffix, answerKey, predictionKey) == Ok(results)
    {
      var task := tasks[i];
      PredictionResultsStep(files, tasks, i, suffix, answerKey, predictionKey);
      var filePath := task + suffix;
      if filePath !in files {
        PredictionErrorPersists(files, tasks, i + 1, suffix, answerKey, predictionKey);
        return Err(MissingPredictionFile(task));
      }
      var scores := ScoreRecords(files[filePath], answerKey, predictionKey);
      if scores.None? {
        PredictionErrorPersists(files, tasks, i + 1, suffix, answerKey, predictionKey);
        return Err(MissingField(task));
      }
      results := results[task := CalculateAccuracy(scores.value)];
      i := i + 1;
    }
    assert tasks[..i] == tasks;
    return Ok(results);
  }

  /** The inner loop of `compute_exact_match_from_predictions` over one task's records:
      the exact-match score of each record, or `None` at the first record that lacks the
      answer key or the prediction key. */
  method ScoreRecords(records: seq<Record>, answerKey: string, predictionKey: string)
    returns (scores: Option<seq<int>>)
    ensures scores.Some? <==> AllHaveFields(records, answerKey, predictionKey)
    ensures scores.Some? ==> scores.value == Scores(records, answerKey, predictionKey)
  {
    var acc: seq<int> := [];
    var k := 0;
    while k < |records|
      invariant 0 <= k <= |records| && |acc| == k
      invariant AllHaveFields(records[..k], answerKey, predictionKey)
      invariant acc == Scores(records[..k], answerKey, predictionKey)
    {
      var obj := records[k];
      if answerKey !in obj || predictionKey !in obj {
        assert !AllHaveFields(records, answerKey, predictionKey) by {
          AllHaveFieldsMeaning(records, answerKey, predictionKey);
        }
        return None;
      }
      ScoresSnoc(records, k, answerKey, predictionKey);
      acc := acc + [ExactMatch(obj[predictionKey], obj[answerKey])];
      k := k + 1;
    }
    assert records[..k] == records;
    return Some(acc);
  }

  /** One more iteration of the task loop: the first `i + 1` tasks fail as the first `i`
      do, or else with the error of task `i`, or else add task `i`'s accuracy. */
  lemma PredictionResultsStep(files: map<string, seq<Record>>, tasks: seq<string>, i: nat, suffix: string,
                              answerKey: string, predictionKey: string)
    requires i < |tasks|
    ensures PredictionResults(files, tasks[..i + 1], suffix, answerKey, predictionKey)
         == match PredictionResults(files, tasks[..i], suffix, answerKey, predictionKey)
            case Err(e) => Err(e)
            case Ok(results) =>
              match TaskAccuracy(files, tasks[i], suffix, answerKey, predictionKey)
              case Err(e) => Err(e)
              case Ok(acc) => Ok(results[tasks[i] := acc])
  {
    assert tasks[..i + 1][..i] == tasks[..i];
  }

  /** Scoring one more record appends its score. */
  lemma ScoresSnoc(records: seq<Record>, k: nat, answerKey: string, predictionKey: string)
    requires k < |records| && AllHaveFields(records[..k], answerKey, predictionKey)
    requires answerKey in records[k] && predictionKey in records[k]
    ensures AllHaveFields(records[..k + 1], answerKey, predictionKey)
    ensures Scores(records[..k + 1], answerKey, predictionKey)
         == Scores(records[..k], answerKey, predictionKey)
            + [ExactMatch(records[k][predictionKey], records[k][answerKey])]
  {
    assert records[..k + 1][..k] == records[..k];
  }

  // ---------------------------------------------------------------- main

  /** The parsed command line (matrix and metrics paths aside: the matrix file is passed
      as a value and the metrics are returned). An empty string is an omitted option. */
  datatype Args = Args(
    tasks: string,
    stage: int,
    resultsJson: string,
    predictionsDir: string,
    predictionsSuffix: string,
    answerKey: string,
    predictionKey: string)

  /** Where a stage's results come from: the results JSON when one is named (even if a
      predictions directory is named too), else the predictions directory, else nowhere. */
  function SelectedResults(args: Args, tasks: seq<string>, doc: ResultsDoc, files: map<string, seq<Record>>)
    : (r: Result<map<string, real>>)
    ensures args.resultsJson != "" ==> r == LoadResultsJson(doc)
    ensures args.resultsJson == "" && args.predictionsDir != "" ==>
      r == PredictionResults(files, tasks, args.predictionsSuffix, args.answerKey, args.predictionKey)
    ensures r == Err(NoResultsSource) <==> args.resultsJson == "" && args.predictionsDir == ""
  {
    if args.resultsJson != "" then LoadResultsJson(doc)
    else if args.predictionsDir != "" then
      PredictionResultsMeaning(files, tasks, args.predictionsSuffix, args.answerKey, args.predictionKey);
      PredictionResults(files, tasks, args.predictionsSuffix, args.answerKey, args.predictionKey)
    else Err(NoResultsSource)
  }

  /** The metric keys emitted at every stage, and at a final stage with a complete last row. */
  const StageKeys: set<string> := {"ACC_stage", "Fgt_stage"}
  const AllKeys: set<string> := {"ACC", "Fgt", "ACC_stage", "Fgt_stage"}

  /** The metrics `main` emits for the updated matrix: ACC_stage and Fgt_stage whenever the
      stage metrics can be computed, and ACC and Fgt besides exactly when `stage` is the
      last stage and the last row is complete. The only possible failure is that of the
      stage metrics. */
  function StageMetrics(m: Matrix, stage: int): (r: Result<map<string, real>>)
    requires IsSquare(m)
    ensures r.Ok? <==> StageAccFgt(m, stage).Ok?
    ensures r.Err? ==> r.error == StageAccFgt(m, stage).error
    ensures r.Ok? ==> r.value.Keys == StageKeys || r.value.Keys == AllKeys
    ensures r.Ok? ==> ("ACC" in r.value <==> stage == |m| && AllSet(m[|m| - 1]))
    ensures r.Ok? && stage == |m| ==> r.value.Keys == AllKeys
    ensures r.Ok? ==> r.value["ACC_stage"] == StageAccFgt(m, stage).value.0
    ensures r.Ok? ==> r.value["Fgt_stage"] == StageAccFgt(m, stage).value.1 >= 0.0
    ensures r.Ok? && "ACC" in r.value ==>
      FinalAccFgt(m).Ok? && r.value["ACC"] == FinalAccFgt(m).value.0 && r.value["Fgt"] == FinalAccFgt(m).value.1 >= 0.0
  {
    match StageAccFgt(m, stage)
    case Err(e) => Err(e)
    case Ok(staged) =>
      var final := if stage == |m| && AllSet(m[|m| - 1]) then
        map["ACC" := FinalAccFgt(m).value.0, "Fgt" := FinalAccFgt(m).value.1]
      else map[];
      assert stage == |m| ==> m[|m| - 1][..stage] == m[|m| - 1];
      Ok(final["ACC_stage" := staged.0]["Fgt_stage" := staged.1])
  }

  /** Lines 104-111 of `main`: the metrics dictionary built step by step. */
  method BuildMetrics(m: Matrix, stage: int) returns (r: Result<map<string, real>>)
    requires IsSquare(m) && m != []
    ensures r == StageMetrics(m, stage)
  {
    var metrics: map<string, real> := map[];
    if stage == |m| && AllSet(m[|m| - 1]) {
      var accFgt := ComputeAccFgt(m);
      metrics := metrics["ACC" := accFgt.value.0];
      metrics := metrics["Fgt" := accFgt.value.1];
    }
    var stageAccFgt := ComputeStageAccFgt(m, stage);
    if stageAccFgt.Err? {
      return Err(stageAccFgt.error);
    }
    metrics := metrics["ACC_stage" := stageAccFgt.value.0];
    metrics := metrics["Fgt_stage" := stageAccFgt.value.1];
    return Ok(metrics);
  }

  /** `main` after argument parsing. Returns the metrics it would print or save, and the
      content of the matrix file afterwards. */
  method EvaluateStage(args: Args, file: Option<Container>, doc: ResultsDoc, files: map<string, seq<Record>>)
    returns (r: Result<map<string, real>>, saved: Option<Container>)
    requires WellFormedFile(file)
    // an empty task list fails before anything is read or written
    ensures ParseTasks(args.tasks) == [] ==> r == Err(EmptyTaskList) && saved == file
    // so does a missing or failing results source
    ensures ParseTasks(args.tasks) != [] && SelectedResults(args, ParseTasks(args.tasks), doc, files).Err? ==>
      r == SelectedResults(args, ParseTasks(args.tasks), doc, files) && saved == file
    // otherwise the matrix file is updated as `update_accuracy_matrix` does, and the
    // metrics are those of the updated matrix
    ensures ParseTasks(args.tasks) != [] && SelectedResults(args, ParseTasks(args.tasks), doc, files).Ok? ==>
      var update := UpdatedContainer(file, args.stage, ParseTasks(args.tasks),
                                     SelectedResults(args, ParseTasks(args.tasks), doc, files).value);
      saved == Persist(file, update)
      && r == (if update.Err? then Err(update.error) else StageMetrics(update.value.matrix, args.stage))
    ensures WellFormedFile(saved)
    // the only failure after the file has been rewritten is an incomplete stage row
    ensures r.Err? && saved != file ==> r == Err(StageRowIncomplete)
    ensures r.Ok? ==> saved.Some? && saved.value.tasks == ParseTasks(args.tasks) != []
  {
    var tasks := ParseTasks(args.tasks);
    if tasks == [] {
      return Err(EmptyTaskList), file;
    }

    var results: map<string, real>;
    if args.resultsJson != "" {
      var loaded := LoadResultsJson(doc);
      if loaded.Err? {
        return Err(loaded.error), file;
      }
      results := loaded.value;
    } else if args.predictionsDir != "" {
      var computed := ComputeExactMatchFromPredictions(files, tasks, args.answerKey, args.predictionKey,
                                                       args.predictionsSuffix);
      if computed.Err? {
        return Err(computed.error), file;
      }
      results := computed.value;
    } else {
      return Err(NoResultsSource), file;
    }

    var updated;
    updated, saved := UpdateAccuracyMatrix(file, args.stage, tasks, results);
    if updated.Err? {
      return Err(updated.error), saved;
    }
    r := BuildMetrics(updated.value.matrix, args.stage);
  }
}
