/**
 * Solution extraction: for every period, student and activity whose value
 * is 1, the activity's name is appended to that student's assignments.
 */
module Extraction {
  import opened Sums
  import opened Preferences
  import opened Formulation

  /** The names of the first n activities whose value is 1 in one period's row, in activity order. */
  function Picks(row: seq<int>, names: seq<string>, n: nat): seq<string>
    requires n <= |row| <= |names|
  {
    if n == 0 then []
    else Picks(row, names, n - 1) + (if row[n - 1] == 1 then [names[n - 1]] else [])
  }

  /** Student i's row in every period has one value per activity name. */
  predicate RowsFit(x: Solution, i: nat, names: seq<string>)
  {
    forall p :: 0 <= p < |x| ==> i < |x[p]| && |x[p][i]| == |names|
  }

  /** What extraction appends for student i in the first n periods, in period order. */
  function Extracted(x: Solution, i: nat, names: seq<string>, n: nat): seq<string>
    requires RowsFit(x, i, names) && n <= |x|
  {
    if n == 0 then [] else Extracted(x, i, names, n - 1) + Picks(x[n - 1][i], names, |names|)
  }

  /** A student record with the first n periods' picks appended for student i. */
  function Appended(s: Student, x: Solution, i: nat, names: seq<string>, n: nat): Student
    requires RowsFit(x, i, names) && n <= |x|
  {
    s.(assignments := s.assignments + Extracted(x, i, names, n))
  }

  /** The student records after extraction. */
  function WithAssignments(students: seq<Student>, x: Solution, names: seq<string>): (r: seq<Student>)
    requires Fits(x, |students|, |names|)
  {
    seq(|students|, i requires 0 <= i < |students| => Appended(students[i], x, i, names, |x|))
  }

  /**
   * The extraction loop: periods, then students, then activities; wherever a
   * value is 1 the activity's name is appended to the student's record in place.
   */
  method ExtractAssignments(x: Solution, names: seq<string>, table: array<Student>)
    requires Fits(x, table.Length, |names|)
    modifies table
    ensures table[..] == WithAssignments(old(table[..]), x, names)
  {
    ghost var before := table[..];
    var reverse := NameOf(names);
    var period := 0;
    while period < |x|
      invariant period <= |x|
      invariant forall s :: 0 <= s < table.Length ==> table[s] == Appended(before[s], x, s, names, period)
    {
      var i := 0;
      while i < table.Length
        invariant i <= table.Length
        invariant forall s :: 0 <= s < i ==> table[s] == Appended(before[s], x, s, names, period + 1)
        invariant forall s :: i <= s < table.Length ==> table[s] == Appended(before[s], x, s, names, period)
      {
        AppendedStep(before[i], x, i, names, period);
        AppendPicks(x[period][i], reverse, names, table, i);
        i := i + 1;
      }
      period := period + 1;
    }
  }

  /** One more period appends that period's picks. */
  lemma AppendedStep(s: Student, x: Solution, i: nat, names: seq<string>, n: nat)
    requires RowsFit(x, i, names) && n < |x|
    ensures Appended(s, x, i, names, n + 1) ==
      Appended(s, x, i, names, n).(assignments := Appended(s, x, i, names, n).assignments + Picks(x[n][i], names, |names|))
  {
    var e, ps := Extracted(x, i, names, n), Picks(x[n][i], names, |names|);
    assert Extracted(x, i, names, n + 1) == e + ps;
    assert s.assignments + (e + ps) == (s.assignments + e) + ps;
  }

  /** The innermost loop: student i's activities in one period, appending each name whose value is 1. */
  method AppendPicks(row: seq<int>, reverse: map<nat, string>, names: seq<string>, table: array<Student>, i: nat)
    requires |row| == |names| && i < table.Length && reverse == NameOf(names)
    modifies table
    ensures table[i] == old(table[i]).(assignments := old(table[i]).assignments + Picks(row, names, |names|))
    ensures forall s :: 0 <= s < table.Length && s != i ==> table[s] == old(table[s])
  {
    var j := 0;
    while j < |names|
      invariant j <= |names|
      invariant table[i] == old(table[i]).(assignments := old(table[i]).assignments + Picks(row, names, j))
      invariant forall s :: 0 <= s < table.Length && s != i ==> table[s] == old(table[s])
    {
      if row[j] == 1 {
        table[i] := table[i].(assignments := table[i].assignments + [reverse[j]]);
      }
      j := j + 1;
    }
  }

  // ---------------------------------------------------------------------------
  // What one period contributes
  // ---------------------------------------------------------------------------

  /** A name is picked exactly when some activity of that name has value 1. */
  lemma {:induction false} PicksMembers(row: seq<int>, names: seq<string>, n: nat)
    requires n <= |row| <= |names|
    ensures forall a :: a in Picks(row, names, n) <==> exists j :: 0 <= j < n && row[j] == 1 && names[j] == a
  {
    if n > 0 {
      PicksMembers(row, names, n - 1);
    }
  }

  /** An activity with value 1 has its name picked. */
  lemma {:induction false} PicksHas(row: seq<int>, names: seq<string>, n: nat, j: nat)
    requires n <= |row| <= |names| && j < n && row[j] == 1
    ensures names[j] in Picks(row, names, n)
  {
    if j < n - 1 {
      PicksHas(row, names, n - 1, j);
    }
  }

  /** Every picked name is that of an activity with value 1. */
  lemma {:induction false} PicksFrom(row: seq<int>, names: seq<string>, n: nat, a: string)
    requires n <= |row| <= |names| && a in Picks(row, names, n)
    ensures exists j :: 0 <= j < n && row[j] == 1 && names[j] == a
  {
    if a !in Picks(row, names, n - 1) {
      assert row[n - 1] == 1 && names[n - 1] == a;
    } else {
      PicksFrom(row, names, n - 1, a);
    }
  }

  /** On binary values, one name is picked per 1 in the row. */
  lemma {:induction false} PicksCount(row: seq<int>, names: seq<string>, n: nat)
    requires n <= |row| <= |names| && IsBits(row)
    ensures |Picks(row, names, n)| == Sum(row[..n])
  {
    if n > 0 {
      PicksCount(row, names, n - 1);
      assert row[..n][..n - 1] == row[..n - 1];
    }
  }

  /** A binary row summing to 1 contributes exactly the name of its one activity. */
  lemma PicksOneHot(row: seq<int>, names: seq<string>)
    requires |row| == |names| && IsBits(row) && Sum(row) == 1
    ensures exists j :: 0 <= j < |row| && row[j] == 1 && Picks(row, names, |names|) == [names[j]]
  {
    PicksCount(row, names, |row|);
    assert row[..|row|] == row;
    PicksMembers(row, names, |row|);
    var ps := Picks(row, names, |names|);
    assert ps[0] in ps;
    var j :| 0 <= j < |row| && row[j] == 1 && names[j] == ps[0];
    assert ps == [names[j]];
  }

  // ---------------------------------------------------------------------------
  // What extraction yields for one student
  // ---------------------------------------------------------------------------

  /** Student i's extracted names are those of the activities with value 1 for i in some period. */
  lemma {:induction false} ExtractedMembers(x: Solution, i: nat, names: seq<string>, n: nat)
    requires RowsFit(x, i, names) && n <= |x|
    ensures forall a :: a in Extracted(x, i, names, n) <==>
      exists p, j :: 0 <= p < n && 0 <= j < |names| && x[p][i][j] == 1 && names[j] == a
  {
    if n > 0 {
      ExtractedMembers(x, i, names, n - 1);
      PicksMembers(x[n - 1][i], names, |names|);
    }
  }

  /** Under constraint 1 on binary values, period p's picks for student i are entry p alone. */
  lemma {:induction false} ExtractedPerPeriod(x: Solution, i: nat, names: seq<string>, n: nat)
    requires RowsFit(x, i, names) && n <= |x|
    requires Binary(x) && OneActivityPerPeriod(x)
    ensures |Extracted(x, i, names, n)| == n
    ensures forall p :: 0 <= p < n ==> Picks(x[p][i], names, |names|) == [Extracted(x, i, names, n)[p]]
  {
    if n > 0 {
      ExtractedPerPeriod(x, i, names, n - 1);
      var row := x[n - 1][i];
      assert IsBits(row);
      PicksCount(row, names, |names|);
      assert row[..|names|] == row;
      var e, e' := Extracted(x, i, names, n), Extracted(x, i, names, n - 1);
      assert e == e' + Picks(row, names, |names|);
      forall p | 0 <= p < n
        ensures Picks(x[p][i], names, |names|) == [e[p]]
      {
        if p < n - 1 {
          assert e[p] == e'[p];
        }
      }
    }
  }

  /**
   * Under constraint 1 on binary values, student i gets one name per period,
   * and entry p names an activity with value 1 in period p.
   */
  lemma ExtractedOnePerPeriod(x: Solution, i: nat, names: seq<string>, n: nat)
    requires RowsFit(x, i, names) && n <= |x|
    requires Binary(x) && OneActivityPerPeriod(x)
    ensures |Extracted(x, i, names, n)| == n
    ensures forall p :: 0 <= p < n ==>
      exists j :: 0 <= j < |names| && x[p][i][j] == 1 && Extracted(x, i, names, n)[p] == names[j] &&
        forall j' :: 0 <= j' < |names| && x[p][i][j'] == 1 ==> j' == j
  {
    ExtractedPerPeriod(x, i, names, n);
    var e := Extracted(x, i, names, n);
    forall p | 0 <= p < n
      ensures exists j :: 0 <= j < |names| && x[p][i][j] == 1 && e[p] == names[j] &&
                forall j' :: 0 <= j' < |names| && x[p][i][j'] == 1 ==> j' == j
    {
      var row := x[p][i];
      PicksFrom(row, names, |names|, e[p]);
      var j :| 0 <= j < |names| && row[j] == 1 && names[j] == e[p];
      assert IsBits(row);
      BitsOneHot(row);
      assert forall j' :: 0 <= j' < |names| && row[j'] == 1 ==> j' == j;
    }
  }

  /**
   * With distinct activity names as well, entry p of student i's assignments
   * names activity j exactly when the variable (p, i, j) is 1.
   */
  lemma ExtractedExact(x: Solution, i: nat, names: seq<string>)
    requires RowsFit(x, i, names)
    requires Binary(x) && OneActivityPerPeriod(x) && Distinct(names)
    ensures |Extracted(x, i, names, |x|)| == |x|
    ensures forall p, j :: 0 <= p < |x| && 0 <= j < |names| ==>
      (x[p][i][j] == 1 <==> Extracted(x, i, names, |x|)[p] == names[j])
  {
    ExtractedPerPeriod(x, i, names, |x|);
    var e := Extracted(x, i, names, |x|);
    forall p, j | 0 <= p < |x| && 0 <= j < |names|
      ensures x[p][i][j] == 1 <==> e[p] == names[j]
    {
      var row := x[p][i];
      if row[j] == 1 {
        PicksHas(row, names, |names|, j);
      }
      if e[p] == names[j] {
        PicksFrom(row, names, |names|, e[p]);
        var j' :| 0 <= j' < |names| && row[j'] == 1 && names[j'] == e[p];
        assert j' == j;
      }
    }
  }

  /**
   * With constraint 2 as well, no activity occurs twice in student i's
   * assignments.
   */
  lemma ExtractedNoDuplicates(x: Solution, numStudents: nat, names: seq<string>, i: nat)
    requires Fits(x, numStudents, |names|) && i < numStudents
    requires Binary(x) && OneActivityPerPeriod(x) && NoRepeats(x, numStudents, |names|) && Distinct(names)
    ensures Distinct(Extracted(x, i, names, |x|))
  {
    ExtractedPerPeriod(x, i, names, |x|);
    ExtractedExact(x, i, names);
    var e := Extracted(x, i, names, |x|);
    forall p1, p2 | 0 <= p1 < p2 < |e|
      ensures e[p1] != e[p2]
    {
      PicksFrom(x[p1][i], names, |names|, e[p1]);
      var j :| 0 <= j < |names| && x[p1][i][j] == 1 && names[j] == e[p1];
      NoRepeatsAt(x, numStudents, |names|, i, j, p1, p2);
    }
  }

  // ---------------------------------------------------------------------------
  // The records after extraction
  // ---------------------------------------------------------------------------

  /** The number of students whose p-th assignment is `name`. */
  function Attending(students: seq<Student>, p: nat, name: string): int
  {
    Sum(seq(|students|, i requires 0 <= i < |students| =>
      if p < |students[i].assignments| && students[i].assignments[p] == name then 1 else 0))
  }

  /**
   * Extraction from a solution meeting constraints 1 to 5 into records with
   * no assignments yet: each student gets exactly one activity per period
   * (entry p is the activity whose variable is 1 in period p), never the same
   * activity twice, and the number of students whose p-th assignment is
   * activity j is that activity's enrollment, so it respects both bounds.
   */
  lemma ExtractionMeetsConstraints(x: Solution, cfg: Config, students: seq<Student>)
    requires Feasible(x, cfg, students) && Distinct(cfg.activities)
    requires forall i :: 0 <= i < |students| ==> students[i].assignments == []
    ensures var after := WithAssignments(students, x, cfg.activities);
      |after| == |students| &&
      (forall i :: 0 <= i < |after| ==>
        after[i].name == students[i].name && after[i].choices == students[i].choices &&
        after[i].choiceNames == students[i].choiceNames) &&
      (forall i :: 0 <= i < |after| ==> |after[i].assignments| == cfg.periods) &&
      (forall p, i, j :: 0 <= p < cfg.periods && 0 <= i < |after| && 0 <= j < |cfg.activities| ==>
        (x[p][i][j] == 1 <==> after[i].assignments[p] == cfg.activities[j])) &&
      (forall i :: 0 <= i < |after| ==> Distinct(after[i].assignments)) &&
      (forall p, j :: 0 <= p < cfg.periods && 0 <= j < |cfg.activities| ==>
        cfg.minSize <= Attending(after, p, cfg.activities[j]) <= cfg.maxSize)
  {
    var names := cfg.activities;
    var after := WithAssignments(students, x, names);
    forall i | 0 <= i < |after|
      ensures |after[i].assignments| == cfg.periods
      ensures forall p, j :: 0 <= p < cfg.periods && 0 <= j < |names| ==>
        (x[p][i][j] == 1 <==> after[i].assignments[p] == names[j])
      ensures Distinct(after[i].assignments)
    {
      assert after[i].assignments == Extracted(x, i, names, |x|);
      ExtractedExact(x, i, names);
      ExtractedNoDuplicates(x, |students|, names, i);
    }
    forall p, j | 0 <= p < cfg.periods && 0 <= j < |names|
      ensures Attending(after, p, names[j]) == Sum(Enrollment(x[p], j))
    {
      AttendingIsEnrollment(x, names, students, p, j);
    }
  }

  /** The students whose p-th assignment is activity j are those whose variable (p, i, j) is 1. */
  lemma AttendingIsEnrollment(x: Solution, names: seq<string>, students: seq<Student>, p: nat, j: nat)
    requires Fits(x, |students|, |names|) && Binary(x) && OneActivityPerPeriod(x) && Distinct(names)
    requires forall i :: 0 <= i < |students| ==> students[i].assignments == []
    requires p < |x| && j < |names|
    ensures Attending(WithAssignments(students, x, names), p, names[j]) == Sum(Enrollment(x[p], j))
  {
    var after := WithAssignments(students, x, names);
    var ind := seq(|after|, i requires 0 <= i < |after| =>
      if p < |after[i].assignments| && after[i].assignments[p] == names[j] then 1 else 0);
    forall i | 0 <= i < |after|
      ensures ind[i] == Enrollment(x[p], j)[i]
    {
      assert after[i].assignments == Extracted(x, i, names, |x|);
      ExtractedExact(x, i, names);
      assert x[p][i][j] == 0 || x[p][i][j] == 1;
    }
    assert ind == Enrollment(x[p], j);
  }
}
