/**
 * The whole run: load the preference rows, take the solver's answer for
 * the model built from them, extract the assignments and count the
 * satisfied choices.
 */
module Pipeline {
  import opened Results
  import opened Preferences
  import opened Formulation
  import opened Extraction
  import opened Report

  /** The status code the solver returns for an optimal solution. */
  const StatusOptimal: int := 1

  /** What the solver hands back: a status code and, per variable, its value. */
  datatype SolverAnswer = SolverAnswer(status: int, values: Solution)

  /** Why a run stops: a row cannot be loaded, or the solver found no solution. */
  datatype Failure = LoadFailed(reason: LoadError) | SolutionNotFound(status: int)

  /** The records with their assignments, and the sanity-check counters. */
  datatype Output = Output(students: seq<Student>, stats: Stats)

  /**
   * What a successful run hands back for the loaded rows and the solver's
   * values x: the loaded records after extraction and their sanity-check
   * counters; one record per row, named "last, first", with the row's
   * choice names, the loaded choice ids and one activity per period; and,
   * when the activity names are
   * distinct, assignments that are exactly the variables at 1, no activity
   * twice, every enrollment within the capacity bounds, every student
   * counted as getting three of four choices, and counters that recompute
   * the objective value.
   */
  predicate Delivered(cfg: Config, rows: seq<seq<string>>, x: Solution, out: Output)
    requires BuildStudents(rows, cfg.activities).Ok?
    requires Feasible(x, cfg, BuildStudents(rows, cfg.activities).value)
  {
    var students := BuildStudents(rows, cfg.activities).value;
    |out.students| == |rows| &&
    out.students == WithAssignments(students, x, cfg.activities) &&
    out.stats == Counters(out.students) &&
    (forall i :: 0 <= i < |rows| ==>
      |rows[i]| == 6 && out.students[i].name == rows[i][1] + ", " + rows[i][0] &&
      out.students[i].choiceNames == rows[i][2..] &&
      out.students[i].choices == students[i].choices &&
      |out.students[i].assignments| == cfg.periods) &&
    (Distinct(cfg.activities) ==>
      (forall p, i, j :: 0 <= p < cfg.periods && 0 <= i < |rows| && 0 <= j < |cfg.activities| ==>
        (x[p][i][j] == 1 <==> out.students[i].assignments[p] == cfg.activities[j])) &&
      (forall i :: 0 <= i < |rows| ==> Distinct(out.students[i].assignments)) &&
      (forall p, j :: 0 <= p < cfg.periods && 0 <= j < |cfg.activities| ==>
        cfg.minSize <= Attending(out.students, p, cfg.activities[j]) <= cfg.maxSize) &&
      out.stats.gotThreeOfFour == |rows| &&
      Objective(x, students) ==
        1000 * out.stats.gotChoice1 + 100 * out.stats.gotChoice2 +
        10 * out.stats.gotChoice3 + out.stats.gotChoice4)
  }

  /** The counters of the sanity check over some records; none exceeds the number of records. */
  function Counters(students: seq<Student>): (stats: Stats)
    ensures stats.gotChoice1 <= |students| && stats.gotChoice2 <= |students|
    ensures stats.gotChoice3 <= |students| && stats.gotChoice4 <= |students|
    ensures stats.gotThreeOfFour <= |students|
  {
    CountsBounded(students);
    Stats(CountGot(students, 0), CountGot(students, 1), CountGot(students, 2), CountGot(students, 3),
          CountThreeOfFour(students))
  }

  /**
   * One run. The solver is not modelled: `answer` is its reply to the model
   * built from the loaded rows, and its one promise is the requires below,
   * that an optimal status comes with values satisfying constraints 1 to 5.
   */
  method Run(cfg: Config, rows: seq<seq<string>>, answer: SolverAnswer) returns (r: Result<Output, Failure>)
    requires BuildStudents(rows, cfg.activities).Ok? && answer.status == StatusOptimal ==>
      Feasible(answer.values, cfg, BuildStudents(rows, cfg.activities).value)
    ensures BuildStudents(rows, cfg.activities).Err? ==>
      r == Err(LoadFailed(BuildStudents(rows, cfg.activities).error))
    ensures BuildStudents(rows, cfg.activities).Ok? && answer.status != StatusOptimal ==>
      r == Err(SolutionNotFound(answer.status))
    ensures r.Ok? <==> BuildStudents(rows, cfg.activities).Ok? && answer.status == StatusOptimal
    ensures r.Ok? ==> Delivered(cfg, rows, answer.values, r.value)
  {
    var loaded := BuildStudents(rows, cfg.activities);
    if loaded.Err? {
      return Err(LoadFailed(loaded.error));
    }
    var students := loaded.value;
    if answer.status != StatusOptimal {
      return Err(SolutionNotFound(answer.status));
    }
    var x := answer.values;
    var table := new Student[|students|](i requires 0 <= i < |students| => students[i]);
    assert table[..] == students;
    ExtractAssignments(x, cfg.activities, table);
    var stats := SanityCheck(table[..]);
    r := Ok(Output(table[..], stats));
    RunDelivers(cfg, rows, x);
  }

  /**
   * Extraction from a feasible solution followed by the sanity check
   * delivers what a successful run promises.
   */
  lemma RunDelivers(cfg: Config, rows: seq<seq<string>>, x: Solution)
    requires BuildStudents(rows, cfg.activities).Ok?
    requires Feasible(x, cfg, BuildStudents(rows, cfg.activities).value)
    ensures var after := WithAssignments(BuildStudents(rows, cfg.activities).value, x, cfg.activities);
      Delivered(cfg, rows, x, Output(after, Counters(after)))
  {
    var students := BuildStudents(rows, cfg.activities).value;
    var names := cfg.activities;
    BuildStudentsRecords(rows, names);
    assert FreshRecords(students, names);
    ExtractedOnePerPeriodAll(x, names, students);
    if Distinct(names) {
      ExtractionMeetsConstraints(x, cfg, students);
      EveryStudentGotThreeOfFour(x, names, students);
      ObjectiveMatchesCounters(x, names, students);
    }
  }

  /** Under constraint 1 every extracted record holds one activity per period. */
  lemma ExtractedOnePerPeriodAll(x: Solution, names: seq<string>, students: seq<Student>)
    requires Fits(x, |students|, |names|) && Binary(x) && OneActivityPerPeriod(x)
    requires forall i :: 0 <= i < |students| ==> students[i].assignments == []
    ensures forall i :: 0 <= i < |students| ==> |WithAssignments(students, x, names)[i].assignments| == |x|
  {
    forall i | 0 <= i < |students|
      ensures |WithAssignments(students, x, names)[i].assignments| == |x|
    {
      ExtractedOnePerPeriod(x, i, names, |x|);
    }
  }

  /**
   * Loaded records always name valid activity ids, so the part of the
   * solver's promise that speaks of the records adds no assumption.
   */
  lemma LoadedChoicesFit(rows: seq<seq<string>>, catalog: seq<string>)
    requires BuildStudents(rows, catalog).Ok?
    ensures ChoicesFit(BuildStudents(rows, catalog).value, |catalog|)
  {
    BuildStudentsRecords(rows, catalog);
  }
}
