/** The accuracy-matrix store of evaluation/continual_metrics.py: `init_accuracy_matrix`,
    `load_accuracy_matrix` and `update_accuracy_matrix`.

    The JSON file at `matrix_path` is modelled as the value `file: Option<Container>`:
    `None` when no file exists, `Some(c)` for the container it holds. An update takes the
    file's content before the call and returns its content after the call. */
module MatrixStore {
  import opened Common

  /** One accuracy, or `None` (JSON `null`) while it has not been measured. */
  type Cell = Option<real>
  type Row = seq<Cell>
  type Matrix = seq<Row>

  /** The persisted object `{"tasks": ..., "matrix": ...}`. Row i holds the accuracies measured
      after training stage i + 1; column j belongs to `tasks[j]`. */
  datatype Container = Container(tasks: seq<string>, matrix: Matrix)

  /** N rows of N cells for N tasks: the shape `init_accuracy_matrix` creates. */
  predicate Shaped(c: Container) {
    |c.matrix| == |c.tasks| && forall i | 0 <= i < |c.matrix| :: |c.matrix[i]| == |c.tasks|
  }

  /** A matrix file is absent or holds a container of that shape. */
  predicate WellFormedFile(file: Option<Container>) {
    file.Some? ==> Shaped(file.value)
  }

  /** `init_accuracy_matrix`: an N x N matrix with every cell unset. */
  function InitAccuracyMatrix(tasks: seq<string>): (c: Container)
    ensures c.tasks == tasks && Shaped(c)
    ensures forall i, j | 0 <= i < |tasks| && 0 <= j < |tasks| :: c.matrix[i][j] == None
  {
    Container(tasks, seq(|tasks|, _ => seq(|tasks|, _ => None)))
  }

  /** `load_accuracy_matrix`: a fresh matrix when there is no file, otherwise the stored
      container, provided its task list equals the current one as an ordered sequence. */
  function LoadAccuracyMatrix(file: Option<Container>, tasks: seq<string>): (r: Result<Container>)
    ensures r.Ok? <==> file.None? || file.value.tasks == tasks
    ensures r.Err? ==> r.error == TaskListMismatch
    ensures file.None? ==> r == Ok(InitAccuracyMatrix(tasks))
    ensures file.Some? && r.Ok? ==> r.value == file.value
    ensures r.Ok? ==> r.value.tasks == tasks && (WellFormedFile(file) ==> Shaped(r.value))
  {
    match file
    case None => Ok(InitAccuracyMatrix(tasks))
    case Some(data) => if data.tasks != tasks then Err(TaskListMismatch) else Ok(data)
  }

  /** The row `update_accuracy_matrix` is writing once its loop has visited the first `n`
      columns: each visited column whose task has a result holds that result. */
  function WriteColumns(row: Row, tasks: seq<string>, results: map<string, real>, n: nat): (r: Row)
    requires |row| == |tasks| && n <= |tasks|
    ensures |r| == |row|
    ensures forall j | 0 <= j < |row| ::
      r[j] == if j < n && tasks[j] in results then Some(results[tasks[j]]) else row[j]
    decreases n
  {
    if n == 0 then row
    else
      var r := WriteColumns(row, tasks, results, n - 1);
      if tasks[n - 1] in results then r[n - 1 := Some(results[tasks[n - 1]])] else r
  }

  /** The container `update_accuracy_matrix` returns and saves, or the error it raises. */
  function UpdatedContainer(file: Option<Container>, stage: int, tasks: seq<string>, results: map<string, real>)
    : (r: Result<Container>)
    requires WellFormedFile(file)
    ensures LoadAccuracyMatrix(file, tasks).Err? ==> r == Err(TaskListMismatch)
    ensures LoadAccuracyMatrix(file, tasks).Ok? && (stage < 1 || stage > |tasks|) ==> r == Err(StageOutOfRange)
    ensures r.Ok? <==> LoadAccuracyMatrix(file, tasks).Ok? && 1 <= stage <= |tasks|
    ensures r.Ok? ==> r.value.tasks == tasks && Shaped(r.value)
    ensures r.Ok? ==> forall i, j | 0 <= i < |tasks| && 0 <= j < |tasks| ::
      r.value.matrix[i][j] ==
        if i == stage - 1 && tasks[j] in results then Some(results[tasks[j]])
        else LoadAccuracyMatrix(file, tasks).value.matrix[i][j]
  {
    match LoadAccuracyMatrix(file, tasks)
    case Err(e) => Err(e)
    case Ok(data) =>
      if stage < 1 || stage > |tasks| then Err(StageOutOfRange)
      else
        var row := WriteColumns(data.matrix[stage - 1], tasks, results, |tasks|);
        Ok(data.(matrix := data.matrix[stage - 1 := row]))
  }

  /** The file after an update: rewritten with the new container on success, untouched on
      any error (both checks precede `save_json`). */
  function Persist(file: Option<Container>, r: Result<Container>): (saved: Option<Container>)
    ensures r.Ok? ==> saved == Some(r.value)
    ensures r.Err? ==> saved == file
    ensures WellFormedFile(file) && (r.Ok? ==> Shaped(r.value)) ==> WellFormedFile(saved)
  {
    if r.Ok? then Some(r.value) else file
  }

  /** `update_accuracy_matrix`. Returns the result and the content of the matrix file
      afterwards. */
  method UpdateAccuracyMatrix(file: Option<Container>, stage: int, tasks: seq<string>, results: map<string, real>)
    returns (r: Result<Container>, saved: Option<Container>)
    requires WellFormedFile(file)
    ensures r == UpdatedContainer(file, stage, tasks, results)
    ensures saved == Persist(file, r) && WellFormedFile(saved)
  {
    var loaded := LoadAccuracyMatrix(file, tasks);
    if loaded.Err? {
      return Err(loaded.error), file;
    }
    var data := loaded.value;
    var matrix := data.matrix;
    if stage < 1 || stage > |tasks| {
      return Err(StageOutOfRange), file;
    }
    var rowIdx := stage - 1;
    var colIdx := 0;
    while colIdx < |tasks|
      invariant 0 <= colIdx <= |tasks|
      invariant matrix == data.matrix[rowIdx := WriteColumns(data.matrix[rowIdx], tasks, results, colIdx)]
    {
      var task := tasks[colIdx];
      if task in results {
        matrix := matrix[rowIdx := matrix[rowIdx][colIdx := Some(results[task])]];
      }
      colIdx := colIdx + 1;
    }
    data := data.(matrix := matrix);
    r, saved := Ok(data), Some(data);
  }

  /** Two shaped containers with the same tasks and the same cells are equal. */
  lemma ContainerExtensionality(a: Container, b: Container)
    requires Shaped(a) && Shaped(b) && a.tasks == b.tasks
    requires forall i, j | 0 <= i < |a.tasks| && 0 <= j < |a.tasks| :: a.matrix[i][j] == b.matrix[i][j]
    ensures a == b
  {
    forall i | 0 <= i < |a.tasks| ensures a.matrix[i] == b.matrix[i] {
      assert forall j | 0 <= j < |a.tasks| :: a.matrix[i][j] == b.matrix[i][j];
    }
  }

  /** Two updates of the same stage amount to one update with the merged results, the
      later value winning for a task present in both. */
  lemma UpdateMerges(file: Option<Container>, stage: int, tasks: seq<string>, first: map<string, real>, second: map<string, real>)
    requires WellFormedFile(file)
    ensures UpdatedContainer(Persist(file, UpdatedContainer(file, stage, tasks, first)), stage, tasks, second)
         == UpdatedContainer(file, stage, tasks, first + second)
  {
    var once := UpdatedContainer(file, stage, tasks, first);
    var merged := UpdatedContainer(file, stage, tasks, first + second);
    var twice := UpdatedContainer(Persist(file, once), stage, tasks, second);
    if once.Ok? {
      assert twice.Ok? && merged.Ok?;
      ContainerExtensionality(twice.value, merged.value);
    }
  }

  /** `update_accuracy_matrix` is idempotent: repeating the same update leaves the same file
      and returns the same container. */
  lemma UpdateIdempotent(file: Option<Container>, stage: int, tasks: seq<string>, results: map<string, real>)
    requires WellFormedFile(file)
    ensures var once := UpdatedContainer(file, stage, tasks, results);
      UpdatedContainer(Persist(file, once), stage, tasks, results) == once
      && Persist(Persist(file, once), UpdatedContainer(Persist(file, once), stage, tasks, results)) == Persist(file, once)
  {
    UpdateMerges(file, stage, tasks, results, results);
    assert results + results == results;
  }

  /** Updates of different stages touch different rows and therefore commute: the file ends
      up the same in either order, and when both stages are in range the second update
      returns the same container in either order. */
  lemma UpdatesOfDifferentStagesCommute(file: Option<Container>, s1: int, s2: int, tasks: seq<string>,
                                        r1: map<string, real>, r2: map<string, real>)
    requires WellFormedFile(file) && s1 != s2
    ensures var a1, b1 := UpdatedContainer(file, s1, tasks, r1), UpdatedContainer(file, s2, tasks, r2);
      Persist(Persist(file, a1), UpdatedContainer(Persist(file, a1), s2, tasks, r2))
      == Persist(Persist(file, b1), UpdatedContainer(Persist(file, b1), s1, tasks, r1))
    ensures 1 <= s1 <= |tasks| && 1 <= s2 <= |tasks| ==>
      UpdatedContainer(Persist(file, UpdatedContainer(file, s1, tasks, r1)), s2, tasks, r2)
      == UpdatedContainer(Persist(file, UpdatedContainer(file, s2, tasks, r2)), s1, tasks, r1)
  {
    var a1 := UpdatedContainer(file, s1, tasks, r1);
    var b1 := UpdatedContainer(file, s2, tasks, r2);
    var a := UpdatedContainer(Persist(file, a1), s2, tasks, r2);
    var b := UpdatedContainer(Persist(file, b1), s1, tasks, r1);
    if a1.Ok? && b1.Ok? {
      assert a.Ok? && b.Ok?;
      ContainerExtensionality(a.value, b.value);
    } else if a1.Ok? {
      assert b == a1;
      assert !(1 <= s2 <= |tasks|) && a.Err?;
    } else if b1.Ok? {
      assert a == b1;
      assert !(1 <= s1 <= |tasks|) && b.Err?;
    }
  }
}
