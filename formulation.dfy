/**
 * The integer program: the (period, student, activity) variable space, the
 * five constraint families and the weighted objective, stated as predicates
 * and functions over a solved 0/1 matrix.
 */
module Formulation {
  import opened Sums
  import opened Preferences

  /** The run's fixed parameters: the activity catalog, the number of periods and the shared capacity bounds. */
  datatype Config = Config(activities: seq<string>, periods: nat, minSize: int, maxSize: int)

  /** The reference scenario: eleven activities, three periods, five to nine students per activity. */
  const ReferenceConfig: Config := Config(ReferenceActivities, 3, 5, 9)

  // ---------------------------------------------------------------------------
  // The variable space
  // ---------------------------------------------------------------------------

  /** The pairs (i, 0), ..., (i, a - 1). */
  function RowOfPairs(i: nat, a: nat): seq<(int, int)>
  {
    if a == 0 then [] else RowOfPairs(i, a - 1) + [(i, a - 1)]
  }

  /** All pairs (student, activity) below (s, a), student-major. */
  function RowMajor(s: nat, a: nat): seq<(int, int)>
  {
    if s == 0 then [] else RowMajor(s - 1, a) + RowOfPairs(s - 1, a)
  }

  /** Lexicographic order on (student, activity) pairs. */
  predicate PairLess(u: (int, int), v: (int, int))
  {
    u.0 < v.0 || (u.0 == v.0 && u.1 < v.1)
  }

  lemma {:induction false} RowOfPairsFacts(i: nat, a: nat)
    ensures |RowOfPairs(i, a)| == a
    ensures forall k :: 0 <= k < a ==> RowOfPairs(i, a)[k] == (i, k)
  {
    if a > 0 {
      RowOfPairsFacts(i, a - 1);
    }
  }

  /** The variable space has S * A entries. */
  lemma {:induction false} RowMajorLength(s: nat, a: nat)
    ensures |RowMajor(s, a)| == s * a
  {
    if s > 0 {
      RowMajorLength(s - 1, a);
      RowOfPairsFacts(s - 1, a);
      assert (s - 1) * a + a == s * a;
    }
  }

  lemma {:induction false} RowOfPairsHas(i: nat, a: nat, j: int)
    requires 0 <= j < a
    ensures (i, j) in RowOfPairs(i, a)
  {
    if j < a - 1 {
      RowOfPairsHas(i, a - 1, j);
      assert (i, j) in RowOfPairs(i, a - 1);
    }
  }

  lemma {:induction false} RowOfPairsOnly(i: nat, a: nat, u: (int, int))
    requires u in RowOfPairs(i, a)
    ensures u.0 == i && 0 <= u.1 < a
  {
    if u != (i, a - 1) {
      RowOfPairsOnly(i, a - 1, u);
    }
  }

  lemma {:induction false} RowMajorHas(s: nat, a: nat, i: int, j: int)
    requires 0 <= i < s && 0 <= j < a
    ensures (i, j) in RowMajor(s, a)
  {
    var front, row := RowMajor(s - 1, a), RowOfPairs(s - 1, a);
    if i == s - 1 {
      RowOfPairsHas(s - 1, a, j);
      assert (i, j) in row;
    } else {
      RowMajorHas(s - 1, a, i, j);
      assert (i, j) in front;
    }
    assert RowMajor(s, a) == front + row;
  }

  lemma {:induction false} RowMajorOnly(s: nat, a: nat, u: (int, int))
    requires u in RowMajor(s, a)
    ensures 0 <= u.0 < s && 0 <= u.1 < a
  {
    var front, row := RowMajor(s - 1, a), RowOfPairs(s - 1, a);
    assert RowMajor(s, a) == front + row;
    if u in front {
      RowMajorOnly(s - 1, a, u);
    } else {
      RowOfPairsOnly(s - 1, a, u);
    }
  }

  /** The variable space holds exactly the pairs below (S, A). */
  lemma RowMajorMembers(s: nat, a: nat)
    ensures forall u: (int, int) :: u in RowMajor(s, a) <==> 0 <= u.0 < s && 0 <= u.1 < a
  {
    forall u: (int, int)
      ensures u in RowMajor(s, a) <==> 0 <= u.0 < s && 0 <= u.1 < a
    {
      if u in RowMajor(s, a) {
        RowMajorOnly(s, a, u);
      }
      if 0 <= u.0 < s && 0 <= u.1 < a {
        RowMajorHas(s, a, u.0, u.1);
      }
    }
  }

  lemma {:induction false} RowMajorOrderedAt(s: nat, a: nat, k1: int, k2: int)
    requires 0 <= k1 < k2 < |RowMajor(s, a)|
    ensures PairLess(RowMajor(s, a)[k1], RowMajor(s, a)[k2])
  {
    var front, row := RowMajor(s - 1, a), RowOfPairs(s - 1, a);
    var all := front + row;
    assert RowMajor(s, a) == all;
    RowOfPairsFacts(s - 1, a);
    if k2 < |front| {
      RowMajorOrderedAt(s - 1, a, k1, k2);
      assert all[k1] == front[k1] && all[k2] == front[k2];
    } else if k1 < |front| {
      assert all[k1] == front[k1] && front[k1] in front;
      RowMajorOnly(s - 1, a, front[k1]);
      assert all[k2] == row[k2 - |front|];
    } else {
      assert all[k1] == row[k1 - |front|] && all[k2] == row[k2 - |front|];
    }
  }

  /** The variable space lists its pairs in strictly increasing row-major order, so each occurs once. */
  lemma RowMajorOrdered(s: nat, a: nat)
    ensures forall k1, k2 :: 0 <= k1 < k2 < |RowMajor(s, a)| ==> PairLess(RowMajor(s, a)[k1], RowMajor(s, a)[k2])
  {
    forall k1, k2 | 0 <= k1 < k2 < |RowMajor(s, a)|
      ensures PairLess(RowMajor(s, a)[k1], RowMajor(s, a)[k2])
    {
      RowMajorOrderedAt(s, a, k1, k2);
    }
  }

  /**
   * `decision_var_matrix`: the (student, activity) keys that every period's
   * variable set is indexed by, built by two nested loops.
   */
  method BuildVarSpace(numStudents: nat, numActivities: nat) returns (vars: seq<(int, int)>)
    ensures vars == RowMajor(numStudents, numActivities)
    ensures |vars| == numStudents * numActivities
    ensures forall u :: u in vars <==> 0 <= u.0 < numStudents && 0 <= u.1 < numActivities
    ensures forall k1, k2 :: 0 <= k1 < k2 < |vars| ==> PairLess(vars[k1], vars[k2])
  {
    vars := [];
    var i := 0;
    while i < numStudents
      invariant i <= numStudents
      invariant vars == RowMajor(i, numActivities)
    {
      var j := 0;
      while j < numActivities
        invariant j <= numActivities
        invariant vars == RowMajor(i, numActivities) + RowOfPairs(i, j)
      {
        vars := vars + [(i, j)];
        j := j + 1;
      }
      i := i + 1;
    }
    RowMajorLength(numStudents, numActivities);
    RowMajorMembers(numStudents, numActivities);
    RowMajorOrdered(numStudents, numActivities);
  }

  // ---------------------------------------------------------------------------
  // A solved model
  // ---------------------------------------------------------------------------

  /** The solver's values, x[period][student][activity]. */
  type Solution = seq<seq<seq<int>>>

  /** Every period holds one value per (student, activity) key. */
  predicate Fits(x: Solution, numStudents: nat, numActivities: nat)
  {
    forall p :: 0 <= p < |x| ==>
      |x[p]| == numStudents && forall i :: 0 <= i < numStudents ==> |x[p][i]| == numActivities
  }

  /** One variable set per period, each keyed by the variable space. */
  predicate Shaped(x: Solution, periods: nat, numStudents: nat, numActivities: nat)
  {
    |x| == periods && Fits(x, numStudents, numActivities)
  }

  /** The variables are binary. */
  predicate Binary(x: Solution)
  {
    forall p, i, j :: 0 <= p < |x| && 0 <= i < |x[p]| && 0 <= j < |x[p][i]| ==>
      x[p][i][j] == 0 || x[p][i][j] == 1
  }

  /** Each period's variable set has exactly the keys of `decision_var_matrix`. */
  lemma SolutionKeys(x: Solution, numStudents: nat, numActivities: nat)
    requires Fits(x, numStudents, numActivities)
    ensures forall p, u :: 0 <= p < |x| ==>
      (u in RowMajor(numStudents, numActivities) <==> 0 <= u.0 < |x[p]| && 0 <= u.1 < |x[p][u.0]|)
  {
    RowMajorMembers(numStudents, numActivities);
  }

  /** Variable (p, i, j) exists in every period. */
  predicate HasEntry(x: Solution, i: nat, j: nat)
  {
    forall p :: 0 <= p < |x| ==> i < |x[p]| && j < |x[p][i]|
  }

  /** The values of one (student, activity) variable across the periods. */
  function Column(x: Solution, i: nat, j: nat): (c: seq<int>)
    requires HasEntry(x, i, j)
    ensures |c| == |x| && forall p :: 0 <= p < |x| ==> c[p] == x[p][i][j]
  {
    if |x| == 0 then [] else Column(x[..|x| - 1], i, j) + [x[|x| - 1][i][j]]
  }

  /** The values of one activity's variables across the students of one period. */
  function Enrollment(xp: seq<seq<int>>, j: nat): (c: seq<int>)
    requires forall i :: 0 <= i < |xp| ==> j < |xp[i]|
  {
    seq(|xp|, i requires 0 <= i < |xp| => xp[i][j])
  }

  /** Constraint 1: every student is in exactly one activity in every period. */
  predicate OneActivityPerPeriod(x: Solution)
  {
    forall p, i :: 0 <= p < |x| && 0 <= i < |x[p]| ==> Sum(x[p][i]) == 1
  }

  /** Constraint 2: no student takes an activity in more than one period. */
  predicate NoRepeats(x: Solution, numStudents: nat, numActivities: nat)
    requires Fits(x, numStudents, numActivities)
  {
    forall i, j :: 0 <= i < numStudents && 0 <= j < numActivities ==> Sum(Column(x, i, j)) <= 1
  }

  /** Constraint 3: every activity has at least `minSize` students in every period. */
  predicate MinimumEnrollment(x: Solution, numStudents: nat, numActivities: nat, minSize: int)
    requires Fits(x, numStudents, numActivities)
  {
    forall p, j :: 0 <= p < |x| && 0 <= j < numActivities ==> Sum(Enrollment(x[p], j)) >= minSize
  }

  /** Constraint 4: every activity has at most `maxSize` students in every period. */
  predicate MaximumEnrollment(x: Solution, numStudents: nat, numActivities: nat, maxSize: int)
    requires Fits(x, numStudents, numActivities)
  {
    forall p, j :: 0 <= p < |x| && 0 <= j < numActivities ==> Sum(Enrollment(x[p], j)) <= maxSize
  }

  /** Every choice id is a valid activity id. */
  predicate ChoicesFit(students: seq<Student>, numActivities: nat)
  {
    forall i, k :: 0 <= i < |students| && 0 <= k < 4 ==> students[i].choices[k] < numActivities
  }

  /** The values of one period's row at the listed activity ids, summed in list order. */
  function ChoiceRow(row: seq<int>, ch: seq<nat>): int
    requires forall k :: 0 <= k < |ch| ==> ch[k] < |row|
  {
    if |ch| == 0 then 0 else ChoiceRow(row, ch[..|ch| - 1]) + row[ch[|ch| - 1]]
  }

  /** Constraint 5's sum for student i: over the periods, then over the student's choices. */
  function ChoiceSum(x: Solution, i: nat, ch: seq<nat>): int
    requires forall p :: 0 <= p < |x| ==> i < |x[p]| && forall k :: 0 <= k < |ch| ==> ch[k] < |x[p][i]|
  {
    if |x| == 0 then 0 else ChoiceSum(x[..|x| - 1], i, ch) + ChoiceRow(x[|x| - 1][i], ch)
  }

  /** Constraint 5: every student gets exactly 3 of their 4 choices. */
  predicate ThreeOfFourChoices(x: Solution, students: seq<Student>, numActivities: nat)
    requires Fits(x, |students|, numActivities) && ChoicesFit(students, numActivities)
  {
    forall i :: 0 <= i < |students| ==> ChoiceSum(x, i, students[i].choices) == 3
  }

  /** The solver's promise for status 1: binary values satisfying constraints 1 to 5. */
  predicate Feasible(x: Solution, cfg: Config, students: seq<Student>)
  {
    var S, A := |students|, |cfg.activities|;
    Shaped(x, cfg.periods, S, A) && Binary(x) && ChoicesFit(students, A) &&
    OneActivityPerPeriod(x) &&
    NoRepeats(x, S, A) &&
    MinimumEnrollment(x, S, A, cfg.minSize) &&
    MaximumEnrollment(x, S, A, cfg.maxSize) &&
    ThreeOfFourChoices(x, students, A)
  }

  lemma ChoiceRowByRank(row: seq<int>, ch: Choices)
    requires forall k :: 0 <= k < 4 ==> ch[k] < |row|
    ensures ChoiceRow(row, ch) == row[ch[0]] + row[ch[1]] + row[ch[2]] + row[ch[3]]
  {
    var c3, c2, c1 := ch[..3], ch[..2], ch[..1];
    assert c3[..2] == c2 && c2[..1] == c1 && c1[..0] == [];
    assert ChoiceRow(row, c1) == row[ch[0]];
    assert ChoiceRow(row, c2) == ChoiceRow(row, c1) + row[ch[1]];
    assert ChoiceRow(row, c3) == ChoiceRow(row, c2) + row[ch[2]];
    assert ch[..4] == ch;
  }

  /** A column grows by the last period's value. */
  lemma ColumnSnoc(x: Solution, i: nat, j: nat)
    requires |x| > 0 && HasEntry(x, i, j)
    ensures Sum(Column(x, i, j)) == Sum(Column(x[..|x| - 1], i, j)) + x[|x| - 1][i][j]
  {
    SumSnoc(Column(x[..|x| - 1], i, j), x[|x| - 1][i][j]);
  }

  /** Constraint 2 on binary values, pointwise: variable (i, j) is not 1 in two different periods. */
  lemma NoRepeatsAt(x: Solution, numStudents: nat, numActivities: nat, i: nat, j: nat, p1: nat, p2: nat)
    requires Fits(x, numStudents, numActivities) && Binary(x) && NoRepeats(x, numStudents, numActivities)
    requires i < numStudents && j < numActivities && p1 < p2 < |x|
    ensures x[p1][i][j] != 1 || x[p2][i][j] != 1
  {
    var c := Column(x, i, j);
    assert IsBits(c);
    if c[p1] == 1 && c[p2] == 1 {
      BitsTwoOnes(c, p1, p2);
    }
  }

  /** Constraint 5's sum is the sum, over the four ranks, of that choice's values across the periods. */
  lemma {:induction false} ChoiceSumByRank(x: Solution, i: nat, ch: Choices)
    requires forall p :: 0 <= p < |x| ==> i < |x[p]| && forall k :: 0 <= k < 4 ==> ch[k] < |x[p][i]|
    ensures ChoiceSum(x, i, ch) ==
      Sum(Column(x, i, ch[0])) + Sum(Column(x, i, ch[1])) + Sum(Column(x, i, ch[2])) + Sum(Column(x, i, ch[3]))
  {
    if |x| > 0 {
      var front := x[..|x| - 1];
      ChoiceSumByRank(front, i, ch);
      var row := x[|x| - 1][i];
      ChoiceRowByRank(row, ch);
      ColumnSnoc(x, i, ch[0]);
      ColumnSnoc(x, i, ch[1]);
      ColumnSnoc(x, i, ch[2]);
      ColumnSnoc(x, i, ch[3]);
    }
  }

  // ---------------------------------------------------------------------------
  // Capacity against head count
  // ---------------------------------------------------------------------------

  /** The enrollments of activities 0 .. n - 1 in one period, added up. */
  function EnrollmentTotal(xp: seq<seq<int>>, n: nat): int
    requires forall i :: 0 <= i < |xp| ==> n <= |xp[i]|
  {
    if n == 0 then 0 else EnrollmentTotal(xp, n - 1) + Sum(Enrollment(xp, n - 1))
  }

  lemma {:induction false} EnrollmentTotalSnoc(xp: seq<seq<int>>, row: seq<int>, n: nat)
    requires forall i :: 0 <= i < |xp| ==> n <= |xp[i]|
    requires n <= |row|
    ensures EnrollmentTotal(xp + [row], n) == EnrollmentTotal(xp, n) + Sum(row[..n])
  {
    if n > 0 {
      EnrollmentTotalSnoc(xp, row, n - 1);
      assert Enrollment(xp + [row], n - 1) == Enrollment(xp, n - 1) + [row[n - 1]];
      SumSnoc(Enrollment(xp, n - 1), row[n - 1]);
      assert row[..n][..n - 1] == row[..n - 1];
    }
  }

  /** Under constraint 1, one period's enrollments add up to the number of students. */
  lemma {:induction false} EnrollmentTotalIsHeadcount(xp: seq<seq<int>>, numActivities: nat)
    requires forall i :: 0 <= i < |xp| ==> |xp[i]| == numActivities && Sum(xp[i]) == 1
    ensures EnrollmentTotal(xp, numActivities) == |xp|
  {
    if |xp| == 0 {
      EnrollmentTotalEmpty(xp, numActivities);
    } else {
      var front, last := xp[..|xp| - 1], xp[|xp| - 1];
      EnrollmentTotalIsHeadcount(front, numActivities);
      assert xp == front + [last];
      EnrollmentTotalSnoc(front, last, numActivities);
      assert last[..numActivities] == last;
    }
  }

  lemma {:induction false} EnrollmentTotalEmpty(xp: seq<seq<int>>, n: nat)
    requires |xp| == 0
    ensures EnrollmentTotal(xp, n) == 0
  {
    if n > 0 {
      EnrollmentTotalEmpty(xp, n - 1);
      assert Enrollment(xp, n - 1) == [];
    }
  }

  /** Per-activity bounds bound the total: n activities hold between n * min and n * max students. */
  lemma {:induction false} EnrollmentTotalBounds(xp: seq<seq<int>>, n: nat, minSize: int, maxSize: int)
    requires forall i :: 0 <= i < |xp| ==> n <= |xp[i]|
    requires forall j :: 0 <= j < n ==> minSize <= Sum(Enrollment(xp, j)) <= maxSize
    ensures n * minSize <= EnrollmentTotal(xp, n) <= n * maxSize
  {
    if n > 0 {
      EnrollmentTotalBounds(xp, n - 1, minSize, maxSize);
      assert (n - 1) * minSize + minSize == n * minSize;
      assert (n - 1) * maxSize + maxSize == n * maxSize;
    }
  }

  /**
   * A feasible solution with at least one period exists only when the
   * students fit the capacity bounds: A * min <= S <= A * max. Bounds tighter
   * than that make the model infeasible.
   */
  lemma CapacityNeedsHeadcount(x: Solution, cfg: Config, students: seq<Student>)
    requires Feasible(x, cfg, students) && cfg.periods > 0
    ensures |cfg.activities| * cfg.minSize <= |students| <= |cfg.activities| * cfg.maxSize
  {
    var xp := x[0];
    EnrollmentTotalIsHeadcount(xp, |cfg.activities|);
    EnrollmentTotalBounds(xp, |cfg.activities|, cfg.minSize, cfg.maxSize);
  }

  /** In the reference scenario a feasible model needs between 55 and 99 students. */
  lemma ReferenceCapacity(x: Solution, students: seq<Student>)
    requires Feasible(x, ReferenceConfig, students)
    ensures 55 <= |students| <= 99
  {
    ReferenceActivitiesDistinct();
    CapacityNeedsHeadcount(x, ReferenceConfig, students);
  }

  // ---------------------------------------------------------------------------
  // The objective
  // ---------------------------------------------------------------------------

  /** The periods' values at each student's choices are in range. */
  predicate PeriodFits(xp: seq<seq<int>>, students: seq<Student>)
  {
    |xp| == |students| &&
    forall i, k :: 0 <= i < |xp| && 0 <= k < 4 ==> students[i].choices[k] < |xp[i]|
  }

  /** In every period, the values at each student's choices are in range. */
  predicate ChoicesInRange(x: Solution, students: seq<Student>)
  {
    forall p :: 0 <= p < |x| ==>
      |x[p]| == |students| &&
      forall i, k :: 0 <= i < |students| && 0 <= k < 4 ==> students[i].choices[k] < |x[p][i]|
  }

  lemma FitsChoicesInRange(x: Solution, students: seq<Student>, numActivities: nat)
    requires Fits(x, |students|, numActivities) && ChoicesFit(students, numActivities)
    ensures ChoicesInRange(x, students)
  {
  }

  /** One student's points in one period: 1000, 100, 10 and 1 for choices 1 to 4. */
  function Points(row: seq<int>, ch: Choices): int
    requires forall k :: 0 <= k < 4 ==> ch[k] < |row|
  {
    1000 * row[ch[0]] + 100 * row[ch[1]] + 10 * row[ch[2]] + row[ch[3]]
  }

  /** The points of the first n students in one period. */
  function PeriodScore(xp: seq<seq<int>>, students: seq<Student>, n: nat): int
    requires PeriodFits(xp, students) && n <= |students|
  {
    if n == 0 then 0 else PeriodScore(xp, students, n - 1) + Points(xp[n - 1], students[n - 1].choices)
  }

  /** The points of every student in periods 0 .. m - 1. */
  function ObjectiveUpTo(x: Solution, students: seq<Student>, m: nat): int
    requires ChoicesInRange(x, students) && m <= |x|
  {
    if m == 0 then 0 else ObjectiveUpTo(x, students, m - 1) + PeriodScore(x[m - 1], students, |students|)
  }

  /** The objective: the points of every student in every period. */
  function Objective(x: Solution, students: seq<Student>): int
    requires ChoicesInRange(x, students)
  {
    ObjectiveUpTo(x, students, |x|)
  }

  /** The values at the first n students' rank-k choices in one period. */
  function RankInPeriod(xp: seq<seq<int>>, students: seq<Student>, k: nat, n: nat): int
    requires PeriodFits(xp, students) && k < 4 && n <= |students|
  {
    if n == 0 then 0 else RankInPeriod(xp, students, k, n - 1) + xp[n - 1][students[n - 1].choices[k]]
  }

  /** The values at the first n students' rank-k choices, over periods 0 .. m - 1. */
  function RankTotal(x: Solution, students: seq<Student>, k: nat, n: nat, m: nat): int
    requires ChoicesInRange(x, students)
    requires k < 4 && n <= |students| && m <= |x|
  {
    if n == 0 then 0 else RankTotal(x, students, k, n - 1, m) + Sum(Column(x, n - 1, students[n - 1].choices[k])[..m])
  }

  lemma {:induction false} PeriodScoreByRank(xp: seq<seq<int>>, students: seq<Student>, n: nat)
    requires PeriodFits(xp, students) && n <= |students|
    ensures PeriodScore(xp, students, n) ==
      1000 * RankInPeriod(xp, students, 0, n) + 100 * RankInPeriod(xp, students, 1, n) +
      10 * RankInPeriod(xp, students, 2, n) + RankInPeriod(xp, students, 3, n)
  {
    if n > 0 {
      PeriodScoreByRank(xp, students, n - 1);
    }
  }

  /** Taking one more period into the rank totals adds that period's rank values. */
  lemma {:induction false} RankTotalStep(x: Solution, students: seq<Student>, k: nat, n: nat, m: nat)
    requires ChoicesInRange(x, students)
    requires k < 4 && n <= |students| && m < |x|
    ensures PeriodFits(x[m], students)
    ensures RankTotal(x, students, k, n, m + 1) == RankTotal(x, students, k, n, m) + RankInPeriod(x[m], students, k, n)
  {
    if n > 0 {
      RankTotalStep(x, students, k, n - 1, m);
      var col := Column(x, n - 1, students[n - 1].choices[k]);
      SumPrefixSnoc(col, m);
    }
  }

  lemma {:induction false} RankTotalNoPeriods(x: Solution, students: seq<Student>, k: nat, n: nat)
    requires ChoicesInRange(x, students) && k < 4 && n <= |students|
    ensures RankTotal(x, students, k, n, 0) == 0
  {
    if n > 0 {
      RankTotalNoPeriods(x, students, k, n - 1);
    }
  }

  lemma {:induction false} ObjectiveUpToByRank(x: Solution, students: seq<Student>, m: nat)
    requires ChoicesInRange(x, students) && m <= |x|
    ensures ObjectiveUpTo(x, students, m) ==
      1000 * RankTotal(x, students, 0, |students|, m) + 100 * RankTotal(x, students, 1, |students|, m) +
      10 * RankTotal(x, students, 2, |students|, m) + RankTotal(x, students, 3, |students|, m)
  {
    var n := |students|;
    if m == 0 {
      RankTotalNoPeriods(x, students, 0, n);
      RankTotalNoPeriods(x, students, 1, n);
      RankTotalNoPeriods(x, students, 2, n);
      RankTotalNoPeriods(x, students, 3, n);
    } else {
      ObjectiveUpToByRank(x, students, m - 1);
      RankTotalStep(x, students, 0, n, m - 1);
      RankTotalStep(x, students, 1, n, m - 1);
      RankTotalStep(x, students, 2, n, m - 1);
      RankTotalStep(x, students, 3, n, m - 1);
      PeriodScoreByRank(x[m - 1], students, n);
    }
  }

  /**
   * The objective splits by rank: 1000 times the rank-1 values plus 100
   * times the rank-2 values and so on, each summed over students and periods.
   */
  lemma ObjectiveByRank(x: Solution, students: seq<Student>)
    requires ChoicesInRange(x, students)
    ensures Objective(x, students) ==
      1000 * RankTotal(x, students, 0, |students|, |x|) + 100 * RankTotal(x, students, 1, |students|, |x|) +
      10 * RankTotal(x, students, 2, |students|, |x|) + RankTotal(x, students, 3, |students|, |x|)
  {
    ObjectiveUpToByRank(x, students, |x|);
  }

  /**
   * Only the variables at a student's four choices carry weight: two
   * solutions that agree there have the same objective value.
   */
  lemma {:induction false} ObjectiveIgnoresOtherActivities(x: Solution, y: Solution, students: seq<Student>)
    requires ChoicesInRange(x, students)
    requires ChoicesInRange(y, students)
    requires |x| == |y|
    requires forall p, i, k :: 0 <= p < |x| && 0 <= i < |x[p]| && 0 <= k < 4 ==>
      x[p][i][students[i].choices[k]] == y[p][i][students[i].choices[k]]
    ensures Objective(x, students) == Objective(y, students)
  {
    ObjectiveUpToAgrees(x, y, students, |x|);
  }

  lemma {:induction false} ObjectiveUpToAgrees(x: Solution, y: Solution, students: seq<Student>, m: nat)
    requires ChoicesInRange(x, students) && ChoicesInRange(y, students)
    requires m <= |x| == |y|
    requires forall p, i, k :: 0 <= p < |x| && 0 <= i < |x[p]| && 0 <= k < 4 ==>
      x[p][i][students[i].choices[k]] == y[p][i][students[i].choices[k]]
    ensures ObjectiveUpTo(x, students, m) == ObjectiveUpTo(y, students, m)
  {
    if m > 0 {
      ObjectiveUpToAgrees(x, y, students, m - 1);
      PeriodScoreAgrees(x[m - 1], y[m - 1], students, |students|);
    }
  }

  lemma {:induction false} PeriodScoreAgrees(xp: seq<seq<int>>, yp: seq<seq<int>>, students: seq<Student>, n: nat)
    requires PeriodFits(xp, students) && PeriodFits(yp, students) && n <= |students|
    requires forall i, k :: 0 <= i < |students| && 0 <= k < 4 ==>
      xp[i][students[i].choices[k]] == yp[i][students[i].choices[k]]
    ensures PeriodScore(xp, students, n) == PeriodScore(yp, students, n)
  {
    if n > 0 {
      PeriodScoreAgrees(xp, yp, students, n - 1);
    }
  }
}
