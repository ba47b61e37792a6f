# Science-fair activity assignment, modelled in Dafny

`science_fair.py` assigns every student to one activity in each of three
periods. Each student lists four ranked choices. The script works in four stages:

- It builds an index from activity names to ids and a record per student.
- It states an integer program with binary variables `x[period][(student, activity)]`,
  five constraint families and an objective worth 1000/100/10/1 points per
  first/second/third/fourth choice met.
- It hands the program to the `pulp` solver and copies the values that are 1
  back into the students' `assignments` lists.
- It counts how many students got each ranked choice and how many got
  exactly three of their four.

This project models every stage around the solver. The solver is an oracle
whose reply is a status code and a matrix of values. Its one promise, stated
as the precondition of `Pipeline.Run`, is that the optimal status comes with
values that fill the model's shape, are binary and satisfy constraints 1 to
5 (`Formulation.Feasible`). `Feasible` also states that every record's choice
ids are activity ids. That is a fact about the loaded records, not about the
solver, and `Pipeline.LoadedChoicesFit` proves it holds for every successful
load, so it adds no assumption.

Modules, one file each:

- `Results` (`results.dfy`): the `Result` type for the load error path.
- `Sums` (`sums.dfy`): `lpSum` on a solved model as a prefix sum, and the facts about sums of bits.
- `Preferences` (`preferences.dfy`):
  - `activities_dict` and `activities_dict_reverse`;
  - the student records of `student_info_dicts`, including the two ways a row fails to load: a row that does not unpack into six fields, and a choice that is not in the catalog (a `KeyError` in the source).
- `Formulation` (`formulation.dfy`):
  - the variable space `decision_var_matrix` as a method with nested loops;
  - the solved model `x[p][i][j]`;
  - constraints 1 to 5 as predicates, with `Feasible` as their conjunction;
  - the objective as a function.
- `Extraction` (`extraction.dfy`): the triple extraction loop as methods over an `array` of student records, updated in place and proved against the function `WithAssignments`.
- `Report` (`report.dfy`): the counting loop of the sanity check as a method proved against counting functions, and the lemmas tying the counters to the model.
- `Pipeline` (`pipeline.dfy`): one whole run, as load, solve (oracle), extract and count.

The run's parameters (the catalog, the number of periods and the two capacity bounds) are gathered in a `Config`. `Formulation.ReferenceConfig` holds the script's values: eleven activities, three periods, and five to nine students per activity. Where a result needs distinct activity names, it is stated under `Distinct(cfg.activities)`; `Preferences.ReferenceActivitiesDistinct` shows that the script's catalog has them.

The source's exactly-three-of-four counter, `total_got_3_of_4`, needs fewer assumptions than one might expect. `Report.EveryStudentGotThreeOfFour` proves `total_got_3_of_4 == NUM_STUDENTS` from binary values, constraint 2, constraint 5 and distinct activity names. It needs neither distinct choices nor constraint 1. Repeated choices are counted twice on both sides, in constraint 5's sum and in the membership tests.

## Model

| member | source | states |
|---|---|---|
| Preferences.IdOf | science_fair.py:59 | `activities_dict`: each catalog name mapped to its position, a later position overwriting an earlier one (its contract is `Preferences.IdOfCorrect`) |
| Preferences.IdOfCorrect | science_fair.py:59 | `activities_dict` has exactly the catalog's names as keys; each maps to a position holding that name, and no later position holds it (a repeated name keeps its last index) |
| Preferences.NameOf | science_fair.py:60 | `activities_dict_reverse` is defined on exactly the ids 0 .. A-1 |
| Preferences.DictionariesInverse | science_fair.py:59-60 | name to id to name gives the name back for every catalog name; id to name to id gives the id back for every id exactly when the names are distinct |
| Preferences.ReferenceActivitiesDistinct | science_fair.py:44-49 | the script's catalog has eleven names, all different |
| Preferences.MakeStudent | science_fair.py:65-72 | one row unpacked into six fields and turned into a record, failing on a wrong field count or an unknown choice, checked in column order (its contract is `Preferences.MakeStudentCorrect`) |
| Preferences.MakeStudentCorrect | science_fair.py:65-72 | a row loads iff it has six fields and its four choices are in the catalog; otherwise the error is the field count or the first unknown choice; a loaded record is named "last, first", keeps the four choice names in rank order, holds at rank k the last catalog position of choice k's name (the id `activities_dict` keeps when names repeat), and has no assignments |
| Preferences.BuildStudents | science_fair.py:64-72 | a successful load has one record per row |
| Preferences.BuildStudentsCorrect | science_fair.py:64-72 | loading succeeds iff every row loads; record i is then row i's record; a failure reports the error of the first row that does not load |
| Preferences.BuildStudentsOk | science_fair.py:64-72 | loading succeeds iff every row loads |
| Preferences.BuildStudentsValues | science_fair.py:64-72 | after a successful load, record i is row i's record |
| Preferences.BuildStudentsError | science_fair.py:64-72 | a failed load reports the error of the first row that does not load |
| Preferences.BuildStudentsRecords | science_fair.py:65-72 | after a successful load every row has six fields, and record i has row i's name and choice names, empty assignments, and at rank k the last catalog position of choice k's name |
| Formulation.BuildVarSpace | science_fair.py:86-89 | the nested loops build the row-major list of pairs; it has S*A entries, holds exactly the pairs with 0 <= i < S and 0 <= j < A, and is strictly increasing, so each pair occurs once |
| Formulation.RowMajorLength | science_fair.py:86-89 | the variable space has S*A entries |
| Formulation.RowMajorMembers | science_fair.py:86-89 | a pair is in the variable space iff 0 <= i < S and 0 <= j < A |
| Formulation.RowMajorHas | science_fair.py:86-89 | every pair below (S, A) is in the variable space |
| Formulation.RowMajorOnly | science_fair.py:86-89 | every pair in the variable space is below (S, A) |
| Formulation.RowMajorOrdered | science_fair.py:86-89 | the variable space is strictly increasing in row-major order |
| Formulation.RowMajorOrderedAt | science_fair.py:86-89 | any two positions of the variable space are in row-major order |
| Formulation.RowOfPairsFacts | science_fair.py:88-89 | one student's inner loop yields (i, 0) .. (i, A-1) in order |
| Formulation.OneActivityPerPeriod | science_fair.py:107-111 | constraint 1: in every period each student's values over the activities sum to 1 |
| Formulation.NoRepeats | science_fair.py:113-117 | constraint 2: each (student, activity) value summed over the periods is at most 1 |
| Formulation.MinimumEnrollment | science_fair.py:119-123 | constraint 3: in every period each activity's values over the students sum to at least the minimum |
| Formulation.MaximumEnrollment | science_fair.py:125-129 | constraint 4: in every period each activity's values over the students sum to at most the maximum |
| Formulation.ThreeOfFourChoices | science_fair.py:131-138 | constraint 5: each student's values at their four choices, over all periods, sum to 3 (its value is given by `Formulation.ChoiceSumByRank`) |
| Formulation.Feasible | science_fair.py:92-138 | the solver's promise: one binary variable set per period over the variable space, meeting constraints 1 to 5, for records whose choice ids are activity ids |
| Formulation.SolutionKeys | science_fair.py:92-97 | in a solved model of the right shape, every period's variables are indexed by exactly the pairs of the variable space |
| Formulation.Column | science_fair.py:116 | constraint 2's list for (i, j) has one value per period, the value of period p at position p |
| Formulation.NoRepeatsAt | science_fair.py:113-117 | on binary values meeting constraint 2, no (student, activity) variable is 1 in two different periods |
| Formulation.ChoiceRowByRank | science_fair.py:136-137 | one period's part of constraint 5 is the sum of the values at the student's four choices |
| Formulation.ChoiceSumByRank | science_fair.py:131-138 | constraint 5's sum equals the sum, over the four ranks, of that choice's values across the periods |
| Formulation.EnrollmentTotalIsHeadcount | science_fair.py:107-111 | under constraint 1 a period's enrollments add up to the number of students |
| Formulation.EnrollmentTotalBounds | science_fair.py:119-129 | under constraints 3 and 4 the enrollments of A activities add up to between A*min and A*max |
| Formulation.CapacityNeedsHeadcount | science_fair.py:107-129 | a feasible model with a period exists only when A*min <= S <= A*max |
| Formulation.Points | science_fair.py:156-160 | one student's terms in one period: 1000, 100, 10 and 1 times the values at the first to fourth choices |
| Formulation.PeriodScore | science_fair.py:155-160 | one period's terms, student by student (split by rank in `Formulation.PeriodScoreByRank`) |
| Formulation.ObjectiveUpTo | science_fair.py:153-160 | the terms of the first m periods, period by period (split by rank in `Formulation.ObjectiveUpToByRank`) |
| Formulation.Objective | science_fair.py:153-162 | the objective: the terms of every period (split by rank in `Formulation.ObjectiveByRank`, recomputed by the counters in `Report.ObjectiveMatchesCounters`) |
| Formulation.ReferenceCapacity | science_fair.py:44-53 | with eleven activities of five to nine students, a feasible model needs between 55 and 99 students |
| Formulation.PeriodScoreByRank | science_fair.py:155-160 | one period's points are 1000, 100, 10 and 1 times the period's values at the students' first to fourth choices |
| Formulation.RankTotalStep | science_fair.py:154-160 | taking one more period adds that period's values at the rank-k choices |
| Formulation.ObjectiveUpToByRank | science_fair.py:153-162 | the points of the first m periods are 1000, 100, 10 and 1 times the rank totals over those periods |
| Formulation.ObjectiveByRank | science_fair.py:153-162 | the objective is 1000, 100, 10 and 1 times the rank-1 to rank-4 values, each summed over students and periods |
| Formulation.ObjectiveIgnoresOtherActivities | science_fair.py:153-162 | solutions that agree at every student's four choices have the same objective, so other variables carry no weight |
| Formulation.ObjectiveUpToAgrees | science_fair.py:153-162 | the same for the first m periods |
| Formulation.PeriodScoreAgrees | science_fair.py:155-160 | the same for one period's points |
| Formulation.FitsChoicesInRange | science_fair.py:136-137 | in a model of the right shape with choice ids below A, every choice variable exists in every period |
| Sums.BitsOneHot | science_fair.py:107-111 | a binary row whose sum is 1 (constraint 1) has exactly one position holding 1 |
| Sums.BitsIndicator | science_fair.py:113-117 | a binary list whose sum is at most 1 (constraint 2) sums to 1 iff some position holds 1, and to 0 otherwise |
| Sums.BitsTwoOnes | science_fair.py:113-117 | two positions holding 1 make a binary sum at least 2 |
| Extraction.Picks | science_fair.py:181-183 | the names appended for one student in one period: those of the activities at 1, in activity order (contract in `Extraction.PicksMembers` and `Extraction.PicksCount`) |
| Extraction.Extracted | science_fair.py:179-183 | the names appended for one student, period after period (contract in `Extraction.ExtractedOnePerPeriod` and `Extraction.ExtractedExact`) |
| Extraction.WithAssignments | science_fair.py:179-183 | the records after the extraction loop, each extended by its extracted names (the loop is proved to produce it in `Extraction.ExtractAssignments`) |
| Extraction.ExtractAssignments | science_fair.py:179-183 | the triple loop leaves every record i extended by the names of the activities at 1 for i, in period order and then activity order, and changes nothing else |
| Extraction.AppendPicks | science_fair.py:181-183 | the activity loop appends to record i exactly the names whose value is 1 in its row, and leaves the other records alone |
| Extraction.AppendedStep | science_fair.py:179-183 | one more period appends that period's names |
| Extraction.PicksMembers | science_fair.py:181-183 | a name is appended for a row iff some activity of that name has value 1 |
| Extraction.PicksHas | science_fair.py:181-183 | an activity with value 1 has its name appended |
| Extraction.PicksFrom | science_fair.py:181-183 | every appended name belongs to an activity with value 1 |
| Extraction.PicksCount | science_fair.py:181-183 | on binary values one name is appended per 1 in the row |
| Extraction.PicksOneHot | science_fair.py:107-111 | a binary row summing to 1 appends exactly the name of its one activity |
| Extraction.ExtractedMembers | science_fair.py:179-183 | a name is in student i's assignments iff some activity of that name is at 1 for i in some period |
| Extraction.ExtractedPerPeriod | science_fair.py:179-183 | under constraint 1, period p appends exactly entry p of the assignments |
| Extraction.ExtractedOnePerPeriod | science_fair.py:179-183 | under constraint 1 each student gets one name per period, and entry p is the name of the one activity at 1 for that student in period p |
| Extraction.ExtractedExact | science_fair.py:179-183 | with distinct names as well, entry p names activity j iff variable (p, i, j) is 1 |
| Extraction.ExtractedNoDuplicates | science_fair.py:113-117 | with constraint 2 as well, no activity occurs twice in a student's assignments |
| Extraction.AttendingIsEnrollment | science_fair.py:119-129 | the students whose p-th assignment is activity j number exactly that activity's enrollment in period p |
| Extraction.ExtractionMeetsConstraints | science_fair.py:107-129 | extraction from a feasible model keeps names and choices, gives each student P assignments that are exactly the variables at 1, never repeats an activity, and fills every activity of every period with between min and max students |
| Report.Got | science_fair.py:218-221 | the membership test: the choice of rank k + 1, by name, is among the student's assignments |
| Report.GotCount | science_fair.py:222 | how many of the four membership tests succeed for one student |
| Report.CountGot | science_fair.py:224-227 | `total_got_choiceK`: the students whose rank-k choice passes the membership test (bounded in `Report.CountsBounded`) |
| Report.CountThreeOfFour | science_fair.py:222-223 | `total_got_3_of_4`: the students for whom exactly three tests succeed (equal to S in `Report.EveryStudentGotThreeOfFour`) |
| Report.SanityCheck | science_fair.py:212-227 | the counting loop yields, per rank, the number of students whose choice of that rank is among their assignments, and the number who got exactly three of four; each is at most S |
| Report.CountsBounded | science_fair.py:204-227 | no counter exceeds the number of students |
| Report.GotIsPeriodSum | science_fair.py:217-221 | on binary values meeting constraint 2, with distinct names, a choice's membership test succeeds iff its variable is 1 in some period, and that variable's sum over the periods is then 1, else 0 |
| Report.RankTotalIsCount | science_fair.py:153-162 | the rank-k values over all periods and students equal the rank-k counter |
| Report.RankTotalByFlags | science_fair.py:224-227 | when each student's rank-k sum equals the membership flag, the rank-k total is the counter |
| Report.ObjectiveMatchesCounters | science_fair.py:153-162 | the objective equals 1000 times the choice-1 counter plus 100, 10 and 1 times the choice-2 to choice-4 counters |
| Report.AllThreeOfFour | science_fair.py:222-223 | when every student got exactly three choices, the three-of-four counter is S |
| Report.EveryStudentGotThreeOfFour | science_fair.py:208-223 | under constraints 2 and 5, on binary values with distinct names, the three-of-four counter is S, as the comment at 208-209 expects |
| Pipeline.Run | science_fair.py:64-227 | a load failure and a non-optimal status are reported as such, and every other run succeeds; a successful run returns exactly the loaded records after extraction from the solver's values, with their sanity-check counters: one record per row with the row's name, choice names, loaded choice ids and P assignments; with distinct names the assignments are exactly the variables at 1, never repeat and respect both capacity bounds, the three-of-four counter is S, and the counters recompute the objective |
| Pipeline.Counters | science_fair.py:204-227 | the five counters of the sanity check over some records, each at most the number of records |
| Pipeline.LoadedChoicesFit | science_fair.py:69 | every loaded record's choice ids are activity ids |
| Pipeline.RunDelivers | science_fair.py:179-227 | extraction from a feasible model followed by the sanity check delivers all of the above |
| Pipeline.ExtractedOnePerPeriodAll | science_fair.py:179-192 | under constraint 1 every record holds exactly P assignments, so the three-way unpack at line 192 succeeds when P is 3 |

## Left out

- CSV reading and writing (science_fair.py:9-36, 40, 198) is file I/O. The rows are an input of `Pipeline.Run`, already split into fields.
- The output rows, the unpack at line 192 and the headers (185-197) are output formatting. `Pipeline.ExtractedOnePerPeriodAll` shows that every record has exactly `NUM_PERIODS` assignments, which is what the unpack needs. The header list has nine names for eight-field rows, which is not modelled.
- The `pulp` problem object is not modelled: the variable names (79, 93-97), the `solve` call (166) and what optimality means. The solver's reply is the parameter `answer`, and its one promise is the precondition of `Pipeline.Run`. Nothing is proved about optimality.
- The float comparison `varValue == 1` (182) is modelled on exact integers.
- The printed objective value (171) and the percentages (229-233) are float output. Only the integer counters are modelled.
- The `assert` on the solver status (170) is modelled as the error `SolutionNotFound(status)` rather than an exception.
- The source never checks that each student was given exactly one activity per period, and neither does the model. Instead, that fact is proved from constraint 1 (`Extraction.ExtractedOnePerPeriod`).
- The extraction loop over `student_info_dicts` is modelled on an `array` of immutable records. The in-place append to one record's list becomes a replacement of that array element, so aliasing between records' lists is not modelled. The source has none.
- Pipeline.Run: the properties of a successful run's assignments (exact, no repeats, capacity, three of four, objective) are stated under `Distinct(cfg.activities)`. The membership tests are by name, so with repeated names they do not follow from the model. The script's own catalog has distinct names, as `Preferences.ReferenceActivitiesDistinct` shows.
