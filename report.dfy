/**
 * The sanity check: per student, which ranked choices appear among the
 * assignments, and the counters over all students.
 */
module Report {
  import opened Sums
  import opened Preferences
  import opened Formulation
  import opened Extraction

  /** The student's choice of rank k + 1 is among their assignments (a membership test, by name). */
  predicate Got(s: Student, k: nat)
    requires k < 4
  {
    s.choiceNames[k] in s.assignments
  }

  function Flag(b: bool): nat
  {
    if b then 1 else 0
  }

  /** How many of the four choices the student got. */
  function GotCount(s: Student): nat
  {
    Flag(Got(s, 0)) + Flag(Got(s, 1)) + Flag(Got(s, 2)) + Flag(Got(s, 3))
  }

  /** `total_got_choiceK`: the students whose choice of rank k + 1 is among their assignments. */
  function CountGot(students: seq<Student>, k: nat): nat
    requires k < 4
  {
    if |students| == 0 then 0
    else CountGot(students[..|students| - 1], k) + Flag(Got(students[|students| - 1], k))
  }

  /** `total_got_3_of_4`: the students who got exactly three of their four choices. */
  function CountThreeOfFour(students: seq<Student>): nat
  {
    if |students| == 0 then 0
    else CountThreeOfFour(students[..|students| - 1]) + Flag(GotCount(students[|students| - 1]) == 3)
  }

  /** The five counters of the sanity check. */
  datatype Stats = Stats(gotChoice1: nat, gotChoice2: nat, gotChoice3: nat, gotChoice4: nat, gotThreeOfFour: nat)

  /** No counter exceeds the number of students. */
  lemma {:induction false} CountsBounded(students: seq<Student>)
    ensures forall k :: 0 <= k < 4 ==> CountGot(students, k) <= |students|
    ensures CountThreeOfFour(students) <= |students|
  {
    if |students| > 0 {
      CountsBounded(students[..|students| - 1]);
    }
  }

  /** The counting loop over the students. */
  method SanityCheck(students: seq<Student>) returns (stats: Stats)
    ensures stats.gotChoice1 == CountGot(students, 0) && stats.gotChoice2 == CountGot(students, 1)
    ensures stats.gotChoice3 == CountGot(students, 2) && stats.gotChoice4 == CountGot(students, 3)
    ensures stats.gotThreeOfFour == CountThreeOfFour(students)
    ensures stats.gotChoice1 <= |students| && stats.gotChoice2 <= |students|
    ensures stats.gotChoice3 <= |students| && stats.gotChoice4 <= |students|
    ensures stats.gotThreeOfFour <= |students|
  {
    var total1, total2, total3, total4, total3Of4 := 0, 0, 0, 0, 0;
    var i := 0;
    while i < |students|
      invariant i <= |students|
      invariant total1 == CountGot(students[..i], 0) && total2 == CountGot(students[..i], 1)
      invariant total3 == CountGot(students[..i], 2) && total4 == CountGot(students[..i], 3)
      invariant total3Of4 == CountThreeOfFour(students[..i])
    {
      var choices := students[i].choiceNames;
      var assignments := students[i].assignments;
      var got1, got2, got3, got4 := 0, 0, 0, 0;
      if choices[0] in assignments { got1 := 1; }
      if choices[1] in assignments { got2 := 1; }
      if choices[2] in assignments { got3 := 1; }
      if choices[3] in assignments { got4 := 1; }
      if got1 + got2 + got3 + got4 == 3 {
        total3Of4 := total3Of4 + 1;
      }
      total1 := total1 + got1;
      total2 := total2 + got2;
      total3 := total3 + got3;
      total4 := total4 + got4;
      assert students[..i + 1][..i] == students[..i];
      i := i + 1;
    }
    assert students[..|students|] == students;
    CountsBounded(students);
    stats := Stats(total1, total2, total3, total4, total3Of4);
  }

  // ---------------------------------------------------------------------------
  // The counters against the solved model
  // ---------------------------------------------------------------------------

  /** Records as the preference index builds them: choice ids name the choice columns, nothing assigned yet. */
  predicate FreshRecords(students: seq<Student>, names: seq<string>)
  {
    forall i :: 0 <= i < |students| ==> ChoicesIndexed(students[i], names) && students[i].assignments == []
  }

  /**
   * On binary values meeting constraint 2, with distinct activity names,
   * the membership test for a student's choice of rank k + 1 succeeds exactly
   * when that choice's variable is 1 in some period, and that variable's sum
   * over the periods is then 1 (else 0).
   */
  lemma GotIsPeriodSum(x: Solution, names: seq<string>, students: seq<Student>, i: nat, k: nat)
    requires Fits(x, |students|, |names|) && Binary(x) && NoRepeats(x, |students|, |names|)
    requires Distinct(names) && FreshRecords(students, names)
    requires i < |students| && k < 4
    ensures Sum(Column(x, i, students[i].choices[k])) == Flag(Got(WithAssignments(students, x, names)[i], k))
  {
    var after := WithAssignments(students, x, names);
    var c := students[i].choices[k];
    assert after[i].assignments == Extracted(x, i, names, |x|);
    ExtractedMembers(x, i, names, |x|);
    var col := Column(x, i, c);
    assert IsBits(col);
    BitsIndicator(col);
    if Got(after[i], k) {
      var p, j :| 0 <= p < |x| && 0 <= j < |names| && x[p][i][j] == 1 && names[j] == names[c];
      assert j == c;
      assert col[p] == 1;
    } else {
      assert forall p :: 0 <= p < |x| ==> col[p] != 1;
    }
  }

  /** The rank-k values of the first n students, summed over the periods, are their rank-k counter. */
  lemma RankTotalIsCount(x: Solution, names: seq<string>, students: seq<Student>, k: nat, n: nat)
    requires Fits(x, |students|, |names|) && Binary(x) && NoRepeats(x, |students|, |names|)
    requires Distinct(names) && FreshRecords(students, names)
    requires k < 4 && n <= |students|
    ensures ChoicesInRange(x, students)
    ensures RankTotal(x, students, k, n, |x|) == CountGot(WithAssignments(students, x, names)[..n], k)
  {
    FitsChoicesInRange(x, students, |names|);
    var after := WithAssignments(students, x, names);
    forall i | 0 <= i < n
      ensures Sum(Column(x, i, students[i].choices[k])) == Flag(Got(after[i], k))
    {
      GotIsPeriodSum(x, names, students, i, k);
    }
    RankTotalByFlags(x, students, after, k, n);
  }

  lemma {:induction false} RankTotalByFlags(x: Solution, students: seq<Student>, after: seq<Student>, k: nat, n: nat)
    requires ChoicesInRange(x, students) && |after| == |students| && k < 4 && n <= |students|
    requires forall i :: 0 <= i < n ==> Sum(Column(x, i, students[i].choices[k])) == Flag(Got(after[i], k))
    ensures RankTotal(x, students, k, n, |x|) == CountGot(after[..n], k)
  {
    if n > 0 {
      RankTotalByFlags(x, students, after, k, n - 1);
      assert after[..n][..n - 1] == after[..n - 1];
      var col := Column(x, n - 1, students[n - 1].choices[k]);
      assert col[..|x|] == col;
    }
  }

  /**
   * The objective value of a binary solution meeting constraint 2 is
   * recomputed exactly by the sanity check's counters:
   * 1000 * choice-1 count + 100 * choice-2 count + 10 * choice-3 count + choice-4 count.
   */
  lemma ObjectiveMatchesCounters(x: Solution, names: seq<string>, students: seq<Student>)
    requires Fits(x, |students|, |names|) && Binary(x) && NoRepeats(x, |students|, |names|)
    requires Distinct(names) && FreshRecords(students, names)
    ensures ChoicesInRange(x, students)
    ensures var after := WithAssignments(students, x, names);
      Objective(x, students) ==
        1000 * CountGot(after, 0) + 100 * CountGot(after, 1) + 10 * CountGot(after, 2) + CountGot(after, 3)
  {
    var after := WithAssignments(students, x, names);
    assert after[..|students|] == after;
    FitsChoicesInRange(x, students, |names|);
    ObjectiveByRank(x, students);
    RankTotalIsCount(x, names, students, 0, |students|);
    RankTotalIsCount(x, names, students, 1, |students|);
    RankTotalIsCount(x, names, students, 2, |students|);
    RankTotalIsCount(x, names, students, 3, |students|);
  }

  lemma {:induction false} AllThreeOfFour(students: seq<Student>)
    requires forall i :: 0 <= i < |students| ==> GotCount(students[i]) == 3
    ensures CountThreeOfFour(students) == |students|
  {
    if |students| > 0 {
      var front := students[..|students| - 1];
      assert forall i :: 0 <= i < |front| ==> front[i] == students[i];
      AllThreeOfFour(front);
    }
  }

  /**
   * With constraint 5 as well, every student got exactly three of their four
   * choices, so `total_got_3_of_4` equals the number of students. Neither
   * constraint 1 nor distinct choices are needed: a choice listed twice is
   * counted twice by constraint 5 and by the membership tests alike.
   */
  lemma EveryStudentGotThreeOfFour(x: Solution, names: seq<string>, students: seq<Student>)
    requires Fits(x, |students|, |names|) && Binary(x) && NoRepeats(x, |students|, |names|)
    requires Distinct(names) && FreshRecords(students, names)
    requires ChoicesFit(students, |names|) && ThreeOfFourChoices(x, students, |names|)
    ensures CountThreeOfFour(WithAssignments(students, x, names)) == |students|
  {
    var after := WithAssignments(students, x, names);
    forall i | 0 <= i < |after|
      ensures GotCount(after[i]) == 3
    {
      ChoiceSumByRank(x, i, students[i].choices);
      GotIsPeriodSum(x, names, students, i, 0);
      GotIsPeriodSum(x, names, students, i, 1);
      GotIsPeriodSum(x, names, students, i, 2);
      GotIsPeriodSum(x, names, students, i, 3);
    }
    AllThreeOfFour(after);
  }
}
