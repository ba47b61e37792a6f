/**
 * The preference index: activity names to ids and back, and one student
 * record per input row of the form first, last, choice1 .. choice4.
 */
module Preferences {
  import opened Results

  /** No value occurs twice. */
  predicate Distinct<T(==)>(s: seq<T>)
  {
    forall a, b :: 0 <= a < b < |s| ==> s[a] != s[b]
  }

  /**
   * `activities_dict`: each catalog name to its position. As in a dictionary
   * built by enumeration, a name listed twice keeps its LAST position.
   */
  function IdOf(catalog: seq<string>): map<string, nat>
  {
    if |catalog| == 0 then map[]
    else IdOf(catalog[..|catalog| - 1])[catalog[|catalog| - 1] := |catalog| - 1]
  }

  /**
   * `activities_dict` holds exactly the catalog's names, maps each to a
   * position holding that name, and to the last such position.
   */
  lemma {:induction false} IdOfCorrect(catalog: seq<string>)
    ensures forall a :: a in IdOf(catalog) <==> a in catalog
    ensures forall a :: a in IdOf(catalog) ==> IdOf(catalog)[a] < |catalog| && catalog[IdOf(catalog)[a]] == a
    ensures forall a, n :: a in IdOf(catalog) && IdOf(catalog)[a] < n < |catalog| ==> catalog[n] != a
  {
    if |catalog| > 0 {
      var front := catalog[..|catalog| - 1];
      IdOfCorrect(front);
      assert forall k :: 0 <= k < |front| ==> front[k] == catalog[k];
      assert catalog == front + [catalog[|catalog| - 1]];
    }
  }

  /** `activities_dict_reverse`: each position of the catalog to its name. */
  function NameOf(catalog: seq<string>): (names: map<nat, string>)
    ensures forall n: nat :: n in names <==> n < |catalog|
  {
    map n: nat | n < |catalog| :: catalog[n]
  }

  /**
   * The two dictionaries are inverse: name -> id -> name always returns the
   * name, and id -> name -> id returns every id exactly when the catalog
   * lists no name twice.
   */
  lemma DictionariesInverse(catalog: seq<string>)
    ensures forall a :: a in IdOf(catalog) ==>
      IdOf(catalog)[a] in NameOf(catalog) && NameOf(catalog)[IdOf(catalog)[a]] == a
    ensures Distinct(catalog) <==>
      forall n :: 0 <= n < |catalog| ==>
        NameOf(catalog)[n] in IdOf(catalog) && IdOf(catalog)[NameOf(catalog)[n]] == n
  {
    var ids, names := IdOf(catalog), NameOf(catalog);
    IdOfCorrect(catalog);
    if Distinct(catalog) {
      forall n | 0 <= n < |catalog|
        ensures names[n] in ids && ids[names[n]] == n
      {
        assert catalog[ids[catalog[n]]] == catalog[n];
      }
    }
    if forall n :: 0 <= n < |catalog| ==> names[n] in ids && ids[names[n]] == n {
      forall a, b | 0 <= a < b < |catalog|
        ensures catalog[a] != catalog[b]
      {
        assert ids[names[a]] == a && ids[names[b]] == b;
      }
    }
  }

  /** The activity list of the reference scenario. */
  const ReferenceActivities: seq<string> :=
    ["100ChartPicture", "BubbleMania", "Closeto20",
     "Measuring", "MysteryNumber", "PicoPhonyZilch",
     "PuzzleinaBag", "RacetoaFlat", "Salute",
     "ShapeCodes", "SteppingStones"]

  /** The reference catalog lists no name twice, so its dictionaries are inverse. */
  lemma ReferenceActivitiesDistinct()
    ensures |ReferenceActivities| == 11
    ensures Distinct(ReferenceActivities)
  {
  }

  type Choices = s: seq<nat> | |s| == 4 witness [0, 0, 0, 0]
  type ChoiceNames = s: seq<string> | |s| == 4 witness ["", "", "", ""]

  /**
   * One entry of `student_info_dicts`: "last, first", the four choices as ids
   * and as names in rank order, and the activities assigned so far.
   */
  datatype Student = Student(
    name: string,
    choices: Choices,
    choiceNames: ChoiceNames,
    assignments: seq<string>)

  /** Why a row cannot be loaded: it does not unpack into six fields, or a choice is not in the catalog. */
  datatype LoadError = WrongFieldCount(fields: nat) | UnknownActivity(activity: string)

  /**
   * The k-th choice id names the k-th choice column, and it is the last
   * position of that name in the catalog, as `activities_dict` keeps it.
   */
  predicate ChoicesIndexed(s: Student, catalog: seq<string>)
  {
    (forall k :: 0 <= k < 4 ==> s.choices[k] < |catalog| && catalog[s.choices[k]] == s.choiceNames[k]) &&
    (forall k, n :: 0 <= k < 4 && s.choices[k] < n < |catalog| ==> catalog[n] != s.choiceNames[k])
  }

  /** The record built from one row `first, last, choice1, choice2, choice3, choice4`. */
  function MakeStudent(row: seq<string>, catalog: seq<string>): Result<Student, LoadError>
  {
    if |row| != 6 then Err(WrongFieldCount(|row|))
    else
      var ids := IdOf(catalog);
      if row[2] !in ids then Err(UnknownActivity(row[2]))
      else if row[3] !in ids then Err(UnknownActivity(row[3]))
      else if row[4] !in ids then Err(UnknownActivity(row[4]))
      else if row[5] !in ids then Err(UnknownActivity(row[5]))
      else
        Ok(Student(row[1] + ", " + row[0],
                   [ids[row[2]], ids[row[3]], ids[row[4]], ids[row[5]]],
                   row[2..],
                   []))
  }

  /**
   * A row loads exactly when it has six fields and its four choices are in
   * the catalog; a short or long row is reported with its field count, an
   * unknown activity by the first choice column that names one; a loaded
   * record has the name "last, first", the choice names of the row and the
   * catalog ids of those names, and no assignments yet.
   */
  lemma MakeStudentCorrect(row: seq<string>, catalog: seq<string>)
    ensures var r := MakeStudent(row, catalog);
      (r.Err? <==> |row| != 6 || exists k :: 2 <= k < |row| && row[k] !in catalog) &&
      (|row| != 6 ==> r == Err(WrongFieldCount(|row|))) &&
      (|row| == 6 && r.Err? ==>
        exists k :: 2 <= k < 6 && row[k] !in catalog && r.error == UnknownActivity(row[k]) &&
          forall m :: 2 <= m < k ==> row[m] in catalog) &&
      (r.Ok? ==>
        r.value.name == row[1] + ", " + row[0] &&
        r.value.choiceNames == row[2..] &&
        r.value.assignments == [] &&
        ChoicesIndexed(r.value, catalog))
  {
    IdOfCorrect(catalog);
    if |row| == 6 {
      var ids := IdOf(catalog);
      if row[2] !in ids {
        assert row[2] !in catalog;
      } else if row[3] !in ids {
        assert row[3] !in catalog;
      } else if row[4] !in ids {
        assert row[4] !in catalog;
      } else if row[5] !in ids {
        assert row[5] !in catalog;
      } else {
        var s := MakeStudent(row, catalog).value;
        assert s.choices == [ids[row[2]], ids[row[3]], ids[row[4]], ids[row[5]]];
        assert forall k :: 2 <= k < 6 ==> row[k] in catalog;
      }
    }
  }

  /** Row i is the first row that cannot be loaded. */
  predicate FirstFailure(rows: seq<seq<string>>, catalog: seq<string>, i: int)
  {
    0 <= i < |rows| && MakeStudent(rows[i], catalog).Err? &&
    forall m :: 0 <= m < i ==> MakeStudent(rows[m], catalog).Ok?
  }

  /**
   * `student_info_dicts`: the records for all rows, student i from row i;
   * the first row that cannot be loaded stops the run.
   */
  function BuildStudents(rows: seq<seq<string>>, catalog: seq<string>): (r: Result<seq<Student>, LoadError>)
    ensures r.Ok? ==> |r.value| == |rows|
  {
    if |rows| == 0 then Ok([])
    else
      var last := |rows| - 1;
      match BuildStudents(rows[..last], catalog)
      case Err(e) => Err(e)
      case Ok(prefix) =>
        match MakeStudent(rows[last], catalog)
        case Err(e) => Err(e)
        case Ok(s) => Ok(prefix + [s])
  }

  /**
   * Loading succeeds exactly when every row loads, student i is then the
   * record of row i, and a failure reports the first row that does not load.
   */
  lemma BuildStudentsCorrect(rows: seq<seq<string>>, catalog: seq<string>)
    ensures BuildStudents(rows, catalog).Ok? <==>
      forall i :: 0 <= i < |rows| ==> MakeStudent(rows[i], catalog).Ok?
    ensures BuildStudents(rows, catalog).Ok? ==>
      forall i :: 0 <= i < |rows| ==> BuildStudents(rows, catalog).value[i] == MakeStudent(rows[i], catalog).value
    ensures BuildStudents(rows, catalog).Err? ==>
      exists i :: FirstFailure(rows, catalog, i) && MakeStudent(rows[i], catalog) == Err(BuildStudents(rows, catalog).error)
  {
    BuildStudentsOk(rows, catalog);
    BuildStudentsValues(rows, catalog);
    BuildStudentsError(rows, catalog);
  }

  lemma {:induction false} BuildStudentsOk(rows: seq<seq<string>>, catalog: seq<string>)
    ensures BuildStudents(rows, catalog).Ok? <==>
      forall i :: 0 <= i < |rows| ==> MakeStudent(rows[i], catalog).Ok?
  {
    if |rows| > 0 {
      var last := |rows| - 1;
      var front := rows[..last];
      assert forall i :: 0 <= i < last ==> front[i] == rows[i];
      BuildStudentsOk(front, catalog);
    }
  }

  lemma {:induction false} BuildStudentsValues(rows: seq<seq<string>>, catalog: seq<string>)
    ensures BuildStudents(rows, catalog).Ok? ==>
      forall i :: 0 <= i < |rows| ==>
        MakeStudent(rows[i], catalog).Ok? && BuildStudents(rows, catalog).value[i] == MakeStudent(rows[i], catalog).value
  {
    if |rows| > 0 {
      var last := |rows| - 1;
      var front := rows[..last];
      assert forall i :: 0 <= i < last ==> front[i] == rows[i];
      BuildStudentsValues(front, catalog);
    }
  }

  lemma {:induction false} BuildStudentsError(rows: seq<seq<string>>, catalog: seq<string>)
    ensures BuildStudents(rows, catalog).Err? ==>
      exists i :: FirstFailure(rows, catalog, i) && MakeStudent(rows[i], catalog) == Err(BuildStudents(rows, catalog).error)
  {
    if |rows| > 0 {
      var last := |rows| - 1;
      var front := rows[..last];
      assert forall i :: 0 <= i < last ==> front[i] == rows[i];
      BuildStudentsError(front, catalog);
      BuildStudentsOk(front, catalog);
      match BuildStudents(front, catalog)
      case Err(e) =>
        var i :| FirstFailure(front, catalog, i) && MakeStudent(front[i], catalog) == Err(e);
        assert FirstFailure(rows, catalog, i);
      case Ok(prefix) =>
        if MakeStudent(rows[last], catalog).Err? {
          assert FirstFailure(rows, catalog, last);
        }
    }
  }

  /**
   * A successful load has one record per row, each row having six fields:
   * record i is named "last, first" from row i, carries row i's choice names
   * and their catalog ids, and has no assignments yet.
   */
  lemma BuildStudentsRecords(rows: seq<seq<string>>, catalog: seq<string>)
    requires BuildStudents(rows, catalog).Ok?
    ensures var students := BuildStudents(rows, catalog).value;
      |students| == |rows| &&
      forall i :: 0 <= i < |rows| ==>
        |rows[i]| == 6 &&
        students[i].name == rows[i][1] + ", " + rows[i][0] &&
        students[i].choiceNames == rows[i][2..] &&
        students[i].assignments == [] &&
        ChoicesIndexed(students[i], catalog)
  {
    BuildStudentsCorrect(rows, catalog);
    forall i | 0 <= i < |rows|
      ensures MakeStudent(rows[i], catalog).Ok? ==>
        |rows[i]| == 6 &&
        MakeStudent(rows[i], catalog).value.name == rows[i][1] + ", " + rows[i][0] &&
        MakeStudent(rows[i], catalog).value.choiceNames == rows[i][2..] &&
        MakeStudent(rows[i], catalog).value.assignments == [] &&
        ChoicesIndexed(MakeStudent(rows[i], catalog).value, catalog)
    {
      MakeStudentCorrect(rows[i], catalog);
    }
  }
}
