/** The six-table variant of the school database (school-management-system2.py):
    Students, Grades_Scale, Grades, Attendance, Classes and Student_Class,
    each an AUTOINCREMENT table. Foreign keys are declared but SQLite does not
    enforce them (no `PRAGMA foreign_keys`), so only the checks the Python code
    makes and the UNIQUE columns (`class_name`, `grade_level` of Grades_Scale)
    constrain the tables. Menu actions that write are methods of `Database`;
    the views and the export are functions of the table contents. */
module SchoolManagement2 {
  import opened Common
  import opened Dates
  import opened SqlValues
  import opened StudentTable

  /** A row of Grades_Scale: id, grade_level. */
  datatype ScaleEntry = ScaleEntry(id: int, level: int)

  /** A row of Grades: id, student_id, subject, grade. */
  datatype Grade = Grade(id: int, studentId: int, subject: string, grade: int)

  /** A row of Attendance: id, student_id, date, present. */
  datatype Attendance = Attendance(id: int, studentId: int, date: string, present: bool)

  /** A row of Classes: id, class_name, grade_level. */
  datatype Class = Class(id: int, name: string, level: int)

  /** A row of Student_Class: id, student_id, class_id. */
  datatype Enrolment = Enrolment(id: int, studentId: int, classId: int)

  /** How a menu action ended. `Crashed` is an exception the program does not
      catch: the action stops there, keeping only what it already committed. */
  datatype Status =
    | Ok
    | StudentNotFound
    | Cancelled
    | ClassNotFound
    | InvalidGradeLevel
    | NotAssigned
    | LevelNotInScale
    | NoClasses
    | InvalidChoice
    | Crashed(error: PyError)

  // ---------------------------------------------------------------------
  // Lookups

  /** `SELECT * FROM Classes WHERE class_name = ?`, first row. */
  function FindClass(classes: seq<Class>, name: string): (r: Option<Class>)
    ensures r.Some? ==> r.value in classes && r.value.name == name
    ensures r.None? <==> forall i :: 0 <= i < |classes| ==> classes[i].name != name
  {
    First(classes, (c: Class) => c.name == name)
  }

  /** The class with a given id, as `JOIN Classes c ON sc.class_id = c.id`
      finds it. */
  function ClassById(classes: seq<Class>, id: int): (r: Option<Class>)
    ensures r.Some? ==> r.value in classes && r.value.id == id
    ensures r.None? <==> forall i :: 0 <= i < |classes| ==> classes[i].id != id
  {
    First(classes, (c: Class) => c.id == id)
  }

  /** The menu picker: classes are listed in table order and numbered from 1;
      `choice` is the number typed. */
  function PickClass(classes: seq<Class>, choice: int): (r: Option<Class>)
    ensures r.Some? <==> 1 <= choice <= |classes|
    ensures r.Some? ==> r.value == classes[choice - 1]
  {
    if 1 <= choice <= |classes| then Some(classes[choice - 1]) else None
  }

  /** The student's enrolments, in table order. */
  function EnrolmentsOf(enrolments: seq<Enrolment>, id: int): seq<Enrolment> {
    Filter(enrolments, (e: Enrolment) => e.studentId == id)
  }

  /** What the delete statement `DELETE FROM Student_Class WHERE student_id = ?`
      leaves. */
  function EnrolmentsWithout(enrolments: seq<Enrolment>, id: int): seq<Enrolment> {
    Filter(enrolments, (e: Enrolment) => e.studentId != id)
  }

  /** The first row of `SELECT grade_level FROM Student_Class sc JOIN Classes c
      ON sc.class_id = c.id WHERE sc.student_id = ?`, scanning Student_Class in
      table order: the level of the first enrolment whose class exists. */
  function AssignedLevel(enrolments: seq<Enrolment>, classes: seq<Class>, id: int): (r: Option<int>)
    ensures r.Some? ==> exists i, j :: (0 <= i < |enrolments| && 0 <= j < |classes|
      && enrolments[i].studentId == id && classes[j].id == enrolments[i].classId
      && classes[j].level == r.value)
    ensures r.None? ==> forall i, j :: (0 <= i < |enrolments| && 0 <= j < |classes|
      && enrolments[i].studentId == id) ==> classes[j].id != enrolments[i].classId
  {
    if enrolments == [] then None
    else if enrolments[0].studentId == id && ClassById(classes, enrolments[0].classId).Some? then
      var c := ClassById(classes, enrolments[0].classId).value;
      assert exists j :: 0 <= j < |classes| && classes[j] == c;
      Some(c.level)
    else
      var r := AssignedLevel(enrolments[1..], classes, id);
      assert forall i :: 0 <= i < |enrolments| - 1 ==> enrolments[1..][i] == enrolments[i + 1];
      r
  }

  /** `SELECT * FROM Grades_Scale WHERE grade_level = ?` finds a row. */
  predicate InScale(scale: seq<ScaleEntry>, level: int) {
    exists i :: 0 <= i < |scale| && scale[i].level == level
  }

  /** The status `add_grade` ends with: it asks only whether the student's
      first joined class has a level listed in Grades_Scale, and never looks at
      the grade value. */
  function GradeCheck(enrolments: seq<Enrolment>, classes: seq<Class>, scale: seq<ScaleEntry>, id: int): (r: Status)
    ensures r == Ok || r == NotAssigned || r == LevelNotInScale
    ensures r == Ok ==> exists i, j :: (0 <= i < |enrolments| && 0 <= j < |classes|
      && enrolments[i].studentId == id && classes[j].id == enrolments[i].classId
      && InScale(scale, classes[j].level))
    ensures r == NotAssigned <==> forall i, j :: (0 <= i < |enrolments| && 0 <= j < |classes|
      && enrolments[i].studentId == id) ==> classes[j].id != enrolments[i].classId
  {
    match AssignedLevel(enrolments, classes, id)
    case None => NotAssigned
    case Some(level) => if InScale(scale, level) then Ok else LevelNotInScale
  }

  /** With exactly one enrolment, to an existing class, the check passes
      exactly when that class's level is in Grades_Scale. */
  lemma GradeCheckSingleEnrolment(enrolments: seq<Enrolment>, classes: seq<Class>,
                                  scale: seq<ScaleEntry>, e: Enrolment, c: Class)
    requires EnrolmentsOf(enrolments, e.studentId) == [e]
    requires ClassById(classes, e.classId) == Some(c)
    ensures GradeCheck(enrolments, classes, scale, e.studentId) == Ok <==> InScale(scale, c.level)
  {
    AssignedLevelSingle(enrolments, classes, e, c);
  }

  lemma {:induction false} AssignedLevelSingle(enrolments: seq<Enrolment>, classes: seq<Class>,
                                               e: Enrolment, c: Class)
    requires EnrolmentsOf(enrolments, e.studentId) == [e]
    requires ClassById(classes, e.classId) == Some(c)
    ensures AssignedLevel(enrolments, classes, e.studentId) == Some(c.level)
  {
    var p := (x: Enrolment) => x.studentId == e.studentId;
    assert enrolments != [];
    if enrolments[0].studentId == e.studentId {
      assert Filter(enrolments, p)[0] == enrolments[0];
    } else {
      assert Filter(enrolments, p) == Filter(enrolments[1..], p);
      AssignedLevelSingle(enrolments[1..], classes, e, c);
    }
  }

  // ---------------------------------------------------------------------
  // view_students and export_data_to_csv: Students LEFT JOIN Student_Class
  // LEFT JOIN Classes

  /** One row of the join: the class name is NULL when the student has no
      enrolment or the enrolment names a class that does not exist. */
  datatype JoinRow = JoinRow(id: int, name: string, className: Option<string>)

  function ClassNameOf(classes: seq<Class>, classId: int): Option<string> {
    match ClassById(classes, classId)
    case Some(c) => Some(c.name)
    case None => None
  }

  /** The join rows of one student: one per enrolment, in Student_Class
      order, or a single row with a NULL class when there is none. */
  function RowsFor(s: Student, enrolments: seq<Enrolment>, classes: seq<Class>): (r: seq<JoinRow>)
    ensures |r| == if EnrolmentsOf(enrolments, s.id) == [] then 1 else |EnrolmentsOf(enrolments, s.id)|
    ensures forall i :: 0 <= i < |r| ==> r[i].id == s.id && r[i].name == s.name
    ensures EnrolmentsOf(enrolments, s.id) == [] ==> r == [JoinRow(s.id, s.name, None)]
    ensures EnrolmentsOf(enrolments, s.id) != [] ==> forall i :: 0 <= i < |r| ==>
      r[i].className == ClassNameOf(classes, EnrolmentsOf(enrolments, s.id)[i].classId)
  {
    var mine := EnrolmentsOf(enrolments, s.id);
    if mine == [] then [JoinRow(s.id, s.name, None)]
    else MapSeq(mine, (e: Enrolment) => JoinRow(s.id, s.name, ClassNameOf(classes, e.classId)))
  }

  /** The whole join, students in table order: at least one row per
      student, and every row carries the id and name of a Students row. */
  function JoinRows(students: seq<Student>, enrolments: seq<Enrolment>, classes: seq<Class>): (r: seq<JoinRow>)
    ensures |r| >= |students|
  {
    if students == [] then []
    else RowsFor(students[0], enrolments, classes) + JoinRows(students[1..], enrolments, classes)
  }

  /** Every join row carries the id and name of a Students row. */
  lemma {:induction false} JoinRowsNameStudents(students: seq<Student>, enrolments: seq<Enrolment>,
                                                classes: seq<Class>)
    ensures forall i :: 0 <= i < |JoinRows(students, enrolments, classes)| ==>
      exists k :: 0 <= k < |students| && students[k].id == JoinRows(students, enrolments, classes)[i].id
                  && students[k].name == JoinRows(students, enrolments, classes)[i].name
  {
    if students != [] {
      var head := RowsFor(students[0], enrolments, classes);
      var tail := JoinRows(students[1..], enrolments, classes);
      JoinRowsNameStudents(students[1..], enrolments, classes);
      var r := head + tail;
      assert JoinRows(students, enrolments, classes) == r;
      forall i | 0 <= i < |r|
        ensures exists k :: 0 <= k < |students| && students[k].id == r[i].id && students[k].name == r[i].name
      {
        if i < |head| {
          assert students[0].id == r[i].id && students[0].name == r[i].name;
        } else {
          var j := i - |head|;
          assert 0 <= j < |tail| && r[i] == tail[j];
          var k :| 0 <= k < |students[1..]| && students[1..][k].id == tail[j].id
                   && students[1..][k].name == tail[j].name;
          assert students[k + 1] == students[1..][k];
        }
      }
    } else {
      assert JoinRows(students, enrolments, classes) == [];
    }
  }

  lemma {:induction false} JoinRowsAppend(a: seq<Student>, b: seq<Student>,
                                          enrolments: seq<Enrolment>, classes: seq<Class>)
    ensures JoinRows(a + b, enrolments, classes)
         == JoinRows(a, enrolments, classes) + JoinRows(b, enrolments, classes)
  {
    if a == [] {
      assert a + b == b;
    } else {
      assert (a + b)[1..] == a[1..] + b;
      JoinRowsAppend(a[1..], b, enrolments, classes);
    }
  }

  /** Each student's own rows are rows of the join. */
  lemma RowsForInJoin(students: seq<Student>, enrolments: seq<Enrolment>,
                       classes: seq<Class>, k: int, x: JoinRow)
    requires 0 <= k < |students| && x in RowsFor(students[k], enrolments, classes)
    ensures x in JoinRows(students, enrolments, classes)
  {
    var front, back := students[..k], students[k..];
    assert students == front + back;
    JoinRowsAppend(front, back, enrolments, classes);
    assert back[0] == students[k];
    var rest := JoinRows(back, enrolments, classes);
    assert rest == RowsFor(back[0], enrolments, classes) + JoinRows(back[1..], enrolments, classes);
    assert x in rest;
  }

  /** A student enrolled in an existing class has a row of the join naming
      that class. */
  lemma EnrolledStudentJoined(students: seq<Student>, enrolments: seq<Enrolment>, classes: seq<Class>,
                              k: int, i: int)
    requires 0 <= k < |students| && 0 <= i < |enrolments|
    requires enrolments[i].studentId == students[k].id
    requires ClassById(classes, enrolments[i].classId).Some?
    ensures JoinRow(students[k].id, students[k].name, Some(ClassById(classes, enrolments[i].classId).value.name))
            in JoinRows(students, enrolments, classes)
  {
    var s := students[k];
    var p := (e: Enrolment) => e.studentId == s.id;
    FilterKeeps(enrolments, p, i);
    var mine := EnrolmentsOf(enrolments, s.id);
    var j :| 0 <= j < |mine| && mine[j] == enrolments[i];
    var rows := RowsFor(s, enrolments, classes);
    assert rows[j] == JoinRow(s.id, s.name, ClassNameOf(classes, enrolments[i].classId));
    RowsForInJoin(students, enrolments, classes, k, rows[j]);
  }

  /** Every student of the table has at least one row in the join, under its
      own id and name; a student without enrolments has the row with a NULL
      class. */
  lemma EveryStudentJoined(students: seq<Student>, enrolments: seq<Enrolment>, classes: seq<Class>, k: int)
    requires 0 <= k < |students|
    ensures exists x :: x in JoinRows(students, enrolments, classes)
                        && x.id == students[k].id && x.name == students[k].name
    ensures EnrolmentsOf(enrolments, students[k].id) == [] ==>
      JoinRow(students[k].id, students[k].name, None) in JoinRows(students, enrolments, classes)
  {
    var mine := RowsFor(students[k], enrolments, classes);
    RowsForInJoin(students, enrolments, classes, k, mine[0]);
  }

  /** A confirmed delete removes exactly the deleted student's rows from the
      join and leaves every other row, in order. */
  lemma {:induction false} JoinRowsAfterDelete(students: seq<Student>, enrolments: seq<Enrolment>,
                                               classes: seq<Class>, id: int)
    ensures JoinRows(Filter(students, (s: Student) => s.id != id), EnrolmentsWithout(enrolments, id), classes)
         == Filter(JoinRows(students, enrolments, classes), (r: JoinRow) => r.id != id)
  {
    var keep := (s: Student) => s.id != id;
    var keepRow := (r: JoinRow) => r.id != id;
    if students != [] {
      var s := students[0];
      var rest := students[1..];
      JoinRowsAfterDelete(rest, enrolments, classes, id);
      assert JoinRows(students, enrolments, classes)
          == RowsFor(s, enrolments, classes) + JoinRows(rest, enrolments, classes);
      FilterAppend(RowsFor(s, enrolments, classes), JoinRows(rest, enrolments, classes), keepRow);
      if s.id == id {
        FilterKeepsNone(RowsFor(s, enrolments, classes), keepRow);
        assert Filter(students, keep) == Filter(rest, keep);
      } else {
        FilterKeepsAll(RowsFor(s, enrolments, classes), keepRow);
        assert Filter(students, keep) == [s] + Filter(rest, keep);
        FilterFilter(enrolments, (e: Enrolment) => e.studentId != id, (e: Enrolment) => e.studentId == s.id);
        assert EnrolmentsOf(EnrolmentsWithout(enrolments, id), s.id) == EnrolmentsOf(enrolments, s.id);
        assert RowsFor(s, EnrolmentsWithout(enrolments, id), classes) == RowsFor(s, enrolments, classes);
      }
    }
  }

  /** A line of `view_students`: the class column shows "Unassigned" when the
      joined name is NULL or empty. */
  datatype Listing = Listing(id: int, name: string, cls: string)

  function Label(className: Option<string>): string {
    match className
    case Some(n) => if n != "" then n else "Unassigned"
    case None => "Unassigned"
  }

  function ToListing(r: JoinRow): Listing {
    Listing(r.id, r.name, Label(r.className))
  }

  /** Some line of `listing` shows `s` under its id and name. */
  ghost predicate Listed(listing: seq<Listing>, s: Student) {
    exists l :: l in listing && l.id == s.id && l.name == s.name
  }

  /** `view_students`: one line per join row, so every student is listed
      under their id and name, with or without a class. */
  function ViewStudents(students: seq<Student>, enrolments: seq<Enrolment>, classes: seq<Class>): (r: seq<Listing>)
    ensures |r| == |JoinRows(students, enrolments, classes)| >= |students|
    ensures forall s {:trigger Listed(r, s)} :: s in students ==> Listed(r, s)
  {
    var r := MapSeq(JoinRows(students, enrolments, classes), ToListing);
    EveryStudentListed(students, enrolments, classes, r);
    r
  }

  lemma EveryStudentListed(students: seq<Student>, enrolments: seq<Enrolment>, classes: seq<Class>,
                           r: seq<Listing>)
    requires r == MapSeq(JoinRows(students, enrolments, classes), ToListing)
    ensures forall s {:trigger Listed(r, s)} :: s in students ==> Listed(r, s)
  {
    var rows := JoinRows(students, enrolments, classes);
    forall s | s in students
      ensures Listed(r, s)
    {
      var k :| 0 <= k < |students| && students[k] == s;
      EveryStudentJoined(students, enrolments, classes, k);
      var x :| x in rows && x.id == s.id && x.name == s.name;
      var i :| 0 <= i < |rows| && rows[i] == x;
      assert r[i] == ToListing(x);
    }
  }

  /** Every line of `view_students` names a Students row. */
  lemma ListingsNameStudents(students: seq<Student>, enrolments: seq<Enrolment>, classes: seq<Class>)
    ensures forall i :: 0 <= i < |ViewStudents(students, enrolments, classes)| ==>
      exists k :: 0 <= k < |students| && students[k].id == ViewStudents(students, enrolments, classes)[i].id
                  && students[k].name == ViewStudents(students, enrolments, classes)[i].name
  {
    var rows := JoinRows(students, enrolments, classes);
    var r := ViewStudents(students, enrolments, classes);
    assert r == MapSeq(rows, ToListing);
    JoinRowsNameStudents(students, enrolments, classes);
    forall i | 0 <= i < |r|
      ensures exists k :: 0 <= k < |students| && students[k].id == r[i].id && students[k].name == r[i].name
    {
      assert r[i] == ToListing(rows[i]);
      var k :| 0 <= k < |students| && students[k].id == rows[i].id && students[k].name == rows[i].name;
      assert students[k].id == r[i].id && students[k].name == r[i].name;
    }
  }

  /** A student added while no enrolment carries their id is listed once,
      last, as "Unassigned", and every earlier line stays as it was. */
  lemma ViewAfterAddStudent(students: seq<Student>, enrolments: seq<Enrolment>, classes: seq<Class>, s: Student)
    requires forall i :: 0 <= i < |enrolments| ==> enrolments[i].studentId != s.id
    ensures ViewStudents(students + [s], enrolments, classes)
         == ViewStudents(students, enrolments, classes) + [Listing(s.id, s.name, "Unassigned")]
  {
    JoinRowsAppend(students, [s], enrolments, classes);
    FilterKeepsNone(enrolments, (e: Enrolment) => e.studentId == s.id);
    assert JoinRows([s], enrolments, classes) == [JoinRow(s.id, s.name, None)];
    MapSeqAppend(JoinRows(students, enrolments, classes), [JoinRow(s.id, s.name, None)], ToListing);
  }

  /** After a confirmed delete `view_students` no longer lists the student and
      lists every other line as before. */
  lemma ViewAfterDelete(students: seq<Student>, enrolments: seq<Enrolment>, classes: seq<Class>, id: int)
    ensures ViewStudents(Filter(students, (s: Student) => s.id != id), EnrolmentsWithout(enrolments, id), classes)
         == Filter(ViewStudents(students, enrolments, classes), (l: Listing) => l.id != id)
  {
    JoinRowsAfterDelete(students, enrolments, classes, id);
    FilterMapListing(JoinRows(students, enrolments, classes), id);
  }

  lemma {:induction false} FilterMapListing(rows: seq<JoinRow>, id: int)
    ensures MapSeq(Filter(rows, (r: JoinRow) => r.id != id), ToListing)
         == Filter(MapSeq(rows, ToListing), (l: Listing) => l.id != id)
  {
    if rows != [] {
      FilterMapListing(rows[1..], id);
      assert MapSeq(rows, ToListing) == [ToListing(rows[0])] + MapSeq(rows[1..], ToListing);
    }
  }

  /** `update_student`'s reassignment, a DELETE of the student's enrolments
      followed by one INSERT, leaves the student with exactly the new
      enrolment and every other student's enrolments as they were. */
  lemma ReassignKeepsOneEnrolment(enrolments: seq<Enrolment>, e: Enrolment, other: int)
    requires other != e.studentId
    ensures EnrolmentsOf(EnrolmentsWithout(enrolments, e.studentId) + [e], e.studentId) == [e]
    ensures EnrolmentsOf(EnrolmentsWithout(enrolments, e.studentId) + [e], other) == EnrolmentsOf(enrolments, other)
  {
    var id := e.studentId;
    var rest := EnrolmentsWithout(enrolments, id);
    FilterAppend(rest, [e], (x: Enrolment) => x.studentId == id);
    FilterDisjoint(enrolments, (x: Enrolment) => x.studentId != id, (x: Enrolment) => x.studentId == id);
    assert Filter([e], (x: Enrolment) => x.studentId == id) == [e];
    FilterAppend(rest, [e], (x: Enrolment) => x.studentId == other);
    FilterFilter(enrolments, (x: Enrolment) => x.studentId != id, (x: Enrolment) => x.studentId == other);
    assert Filter([e], (x: Enrolment) => x.studentId == other) == [];
  }

  /** So after the reassignment `view_students` shows the student on exactly
      one line, with the new class. */
  lemma ReassignedStudentListedOnce(s: Student, enrolments: seq<Enrolment>, classes: seq<Class>, e: Enrolment, c: Class)
    requires e.studentId == s.id && ClassById(classes, e.classId) == Some(c)
    ensures MapSeq(RowsFor(s, EnrolmentsWithout(enrolments, s.id) + [e], classes), ToListing)
         == [Listing(s.id, s.name, Label(Some(c.name)))]
  {
    var rest := EnrolmentsWithout(enrolments, s.id);
    FilterAppend(rest, [e], (x: Enrolment) => x.studentId == s.id);
    FilterDisjoint(enrolments, (x: Enrolment) => x.studentId != s.id, (x: Enrolment) => x.studentId == s.id);
    assert Filter([e], (x: Enrolment) => x.studentId == s.id) == [e];
    assert EnrolmentsOf(rest + [e], s.id) == [e];
  }

  // ---------------------------------------------------------------------
  // export_data_to_csv

  /** The key of `ORDER BY s.name, c.class_name`. */
  function NameClassKey(r: JoinRow): seq<Value> {
    [Text(r.name), match r.className case Some(n) => Text(n) case None => Null]
  }

  /** The rows `export_data_to_csv` writes after its header: the whole join,
      ordered by student name and then class name, NULL before any name. */
  function ExportRows(students: seq<Student>, enrolments: seq<Enrolment>, classes: seq<Class>): (r: seq<JoinRow>)
    ensures SortedBy(r, NameClassKey)
    ensures multiset(r) == multiset(JoinRows(students, enrolments, classes))
  {
    SortBy(JoinRows(students, enrolments, classes), NameClassKey, 2)
  }

  const StudentDataHeader: seq<Value> := [Text("Student ID"), Text("Student Name"), Text("Class")]

  /** A join row as the CSV writer receives it; a NULL class stays NULL and is
      written as an empty field. */
  function JoinRowValues(r: JoinRow): seq<Value> {
    [Int(r.id), Text(r.name), match r.className case Some(n) => Text(n) case None => Null]
  }

  function ReadJoinRow(v: seq<Value>): Option<JoinRow> {
    if |v| == 3 && v[0].Int? && v[1].Text? && (v[2].Null? || v[2].Text?)
    then Some(JoinRow(v[0].i, v[1].t, if v[2].Null? then None else Some(v[2].t)))
    else None
  }

  /** A written row reads back as the join row it came from; a NULL class
      reads back as no class. */
  lemma ReadJoinRowInverts(r: JoinRow)
    ensures ReadJoinRow(JoinRowValues(r)) == Some(r)
  {
    if r.className.Some? {
      assert JoinRowValues(r)[2] == Text(r.className.value);
    }
  }

  /** The rows of student_data.csv: the fixed header, then one three-field
      line per join row, so the file has one line more than the join has
      rows. */
  function StudentDataCsv(students: seq<Student>, enrolments: seq<Enrolment>, classes: seq<Class>): (r: seq<seq<Value>>)
    ensures |r| == |JoinRows(students, enrolments, classes)| + 1
    ensures r[0] == StudentDataHeader
    ensures forall i :: 1 <= i < |r| ==> |r[i]| == 3 && r[i][0].Int?
  {
    var rows := ExportRows(students, enrolments, classes);
    assert |rows| == |JoinRows(students, enrolments, classes)| by {
      assert |multiset(rows)| == |multiset(JoinRows(students, enrolments, classes))|;
    }
    [StudentDataHeader] + MapSeq(rows, JoinRowValues)
  }

  /** Reading the lines of student_data.csv after the header back gives the
      ordered join. */
  lemma StudentDataRoundTrip(students: seq<Student>, enrolments: seq<Enrolment>, classes: seq<Class>)
    ensures var lines := StudentDataCsv(students, enrolments, classes);
      ReadRows(lines[1..], ReadJoinRow) == Some(ExportRows(students, enrolments, classes))
  {
    var rows := ExportRows(students, enrolments, classes);
    var lines := StudentDataCsv(students, enrolments, classes);
    assert lines[1..] == MapSeq(rows, JoinRowValues);
    forall x: JoinRow ensures ReadJoinRow(JoinRowValues(x)) == Some(x) {
      ReadJoinRowInverts(x);
    }
    ReadMapRows(rows, JoinRowValues, ReadJoinRow);
  }

  // ---------------------------------------------------------------------
  // view_student_attendance and view_students_in_class

  function DateKey(a: Attendance): seq<Value> {
    [Text(a.date)]
  }

  /** `SELECT date, present FROM Attendance WHERE student_id = ? ORDER BY date`:
      exactly the student's records, earliest date text first. */
  function StudentAttendance(attendance: seq<Attendance>, id: int): (r: seq<Attendance>)
    ensures SortedBy(r, DateKey)
    ensures multiset(r) == multiset(Filter(attendance, (a: Attendance) => a.studentId == id))
    ensures forall i :: 0 <= i < |r| ==> r[i].studentId == id
  {
    var mine := Filter(attendance, (a: Attendance) => a.studentId == id);
    var r := SortBy(mine, DateKey, 1);
    assert forall i :: 0 <= i < |r| ==> r[i] in multiset(mine);
    r
  }

  /** A line of `view_students_in_class`: id and name. */
  datatype Member = Member(id: int, name: string)

  function FindStudent(students: seq<Student>, id: int): (r: Option<Student>)
    ensures r.Some? ==> r.value in students && r.value.id == id
    ensures r.None? <==> !StudentExists(students, id)
  {
    if students == [] then None
    else if students[0].id == id then Some(students[0])
    else
      var r := FindStudent(students[1..], id);
      assert StudentExists(students, id) ==> StudentExists(students[1..], id) by {
        if StudentExists(students, id) {
          var i :| 0 <= i < |students| && students[i].id == id;
          assert students[1..][i - 1] == students[i];
        }
      }
      r
  }

  /** Whether an enrolment joins a Students row and belongs to the class. */
  predicate InClass(students: seq<Student>, classId: int, e: Enrolment) {
    e.classId == classId && FindStudent(students, e.studentId).Some?
  }

  /** The roster line an enrolment of an existing student gives.
      `ClassMembers` only passes enrolments that `InClass` accepts, so the
      `None` case never arises there; it keeps the function total. */
  function MemberOf(students: seq<Student>, e: Enrolment): Member {
    match FindStudent(students, e.studentId)
    case Some(s) => Member(s.id, s.name)
    case None => Member(e.studentId, "")
  }

  /** `SELECT s.id, s.name FROM Students s JOIN Student_Class sc ON s.id =
      sc.student_id WHERE sc.class_id = ?`, Student_Class scanned in table
      order: one line per enrolment in the class whose student exists, and
      each line is that student's id and name. */
  function ClassMembers(students: seq<Student>, enrolments: seq<Enrolment>, classId: int): (r: seq<Member>)
    ensures |r| == |Filter(enrolments, (e: Enrolment) => InClass(students, classId, e))| <= |enrolments|
    ensures forall k :: 0 <= k < |r| ==> exists s :: s in students && r[k] == Member(s.id, s.name)
    ensures forall k :: 0 <= k < |r| ==>
      exists i :: 0 <= i < |enrolments| && enrolments[i].classId == classId && enrolments[i].studentId == r[k].id
  {
    var p := (e: Enrolment) => InClass(students, classId, e);
    var joined := Filter(enrolments, p);
    FilterAll(enrolments, p, (x: Enrolment) => x in enrolments);
    MapSeq(joined, (e: Enrolment) => MemberOf(students, e))
  }

  /** Every enrolment in the class whose student exists puts that student on
      the roster. */
  lemma ClassMembersComplete(students: seq<Student>, enrolments: seq<Enrolment>, classId: int, i: int)
    requires 0 <= i < |enrolments| && enrolments[i].classId == classId
    requires StudentExists(students, enrolments[i].studentId)
    ensures exists k :: (0 <= k < |ClassMembers(students, enrolments, classId)|
      && ClassMembers(students, enrolments, classId)[k].id == enrolments[i].studentId)
  {
    var p := (e: Enrolment) => InClass(students, classId, e);
    FilterKeeps(enrolments, p, i);
    var joined := Filter(enrolments, p);
    var k :| 0 <= k < |joined| && joined[k] == enrolments[i];
    assert ClassMembers(students, enrolments, classId)[k] == MemberOf(students, enrolments[i]);
  }

  datatype Roster = NoClassesFound | BadChoice | Enrolled(members: seq<Member>)

  /** `view_students_in_class`: the classes are listed and numbered, the typed
      number picks one, and the roster is that class's members. */
  function ViewStudentsInClass(students: seq<Student>, enrolments: seq<Enrolment>, classes: seq<Class>,
                               choice: int): (r: Roster)
    ensures r.NoClassesFound? <==> classes == []
    ensures r.BadChoice? <==> classes != [] && !(1 <= choice <= |classes|)
    ensures r.Enrolled? ==> r.members == ClassMembers(students, enrolments, classes[choice - 1].id)
  {
    if classes == [] then NoClassesFound
    else match PickClass(classes, choice)
      case None => BadChoice
      case Some(c) => Enrolled(ClassMembers(students, enrolments, c.id))
  }

  /** After `assign_student_to_class` enrols an existing student in the
      picked class, that class's roster lists the student last. */
  lemma AssignedStudentListed(students: seq<Student>, enrolments: seq<Enrolment>, classes: seq<Class>,
                              choice: int, n: int, s: Student)
    requires forall i, j :: 0 <= i < j < |students| ==> students[i].id < students[j].id
    requires s in students && 1 <= choice <= |classes|
    ensures var roster :=
      ViewStudentsInClass(students, enrolments + [Enrolment(n, s.id, classes[choice - 1].id)], classes, choice);
      roster.Enrolled? && |roster.members| > 0 && roster.members[|roster.members| - 1] == Member(s.id, s.name)
  {
    var e := Enrolment(n, s.id, classes[choice - 1].id);
    var p := (x: Enrolment) => InClass(students, e.classId, x);
    var f := (x: Enrolment) => MemberOf(students, x);
    var found := FindStudent(students, s.id);
    assert found == Some(s) by {
      var k :| 0 <= k < |students| && students[k] == s;
      var j :| 0 <= j < |students| && students[j] == found.value;
      assert j == k;
    }
    FilterAppend(enrolments, [e], p);
    assert Filter([e], p) == [e];
    MapSeqAppend(Filter(enrolments, p), [e], f);
  }

  // ---------------------------------------------------------------------
  // The database

  /** Every enrolment refers to a student that exists. Foreign keys are not
      enforced, so this holds only as far as the operations keep it. */
  ghost predicate EnrolmentsLive(students: seq<Student>, enrolments: seq<Enrolment>) {
    forall i :: 0 <= i < |enrolments| ==> StudentExists(students, enrolments[i].studentId)
  }

  /** No two classes share a name (`class_name TEXT NOT NULL UNIQUE`). */
  ghost predicate ClassNamesUnique(classes: seq<Class>) {
    forall i, j :: 0 <= i < j < |classes| ==> classes[i].name != classes[j].name
  }

  /** No two Grades_Scale rows share a level (`grade_level ... UNIQUE`). */
  ghost predicate LevelsUnique(scale: seq<ScaleEntry>) {
    forall i, j :: 0 <= i < j < |scale| ==> scale[i].level != scale[j].level
  }

  /** What `DELETE FROM Students WHERE id = ?` leaves. */
  function StudentsWithout(students: seq<Student>, id: int): seq<Student> {
    Filter(students, (s: Student) => s.id != id)
  }

  /** What `DELETE FROM Grades WHERE student_id = ?` leaves. */
  function GradesWithout(grades: seq<Grade>, id: int): seq<Grade> {
    Filter(grades, (g: Grade) => g.studentId != id)
  }

  /** What `DELETE FROM Attendance WHERE student_id = ?` leaves. */
  function AttendanceWithout(attendance: seq<Attendance>, id: int): seq<Attendance> {
    Filter(attendance, (a: Attendance) => a.studentId != id)
  }

  /** Renaming changes no id, so every enrolment still finds its student. */
  lemma LiveAfterRename(students: seq<Student>, enrolments: seq<Enrolment>, id: int, name: string)
    requires EnrolmentsLive(students, enrolments)
    ensures EnrolmentsLive(Rename(students, id, name), enrolments)
  {
    var renamed := Rename(students, id, name);
    forall i | 0 <= i < |enrolments| ensures StudentExists(renamed, enrolments[i].studentId) {
      var k :| 0 <= k < |students| && students[k].id == enrolments[i].studentId;
      assert renamed[k].id == students[k].id;
    }
  }

  /** Replacing an existing student's enrolments by one new enrolment keeps
      every enrolment pointing at an existing student. */
  lemma LiveAfterReassign(students: seq<Student>, enrolments: seq<Enrolment>, e: Enrolment)
    requires EnrolmentsLive(students, enrolments) && StudentExists(students, e.studentId)
    ensures EnrolmentsLive(students, EnrolmentsWithout(enrolments, e.studentId) + [e])
  {
    FilterAll(enrolments, (x: Enrolment) => x.studentId != e.studentId,
              (x: Enrolment) => StudentExists(students, x.studentId));
  }

  /** The delete removes the student together with every enrolment naming
      them, so the enrolments left still all find their student. */
  lemma LiveAfterDelete(students: seq<Student>, enrolments: seq<Enrolment>, id: int)
    requires EnrolmentsLive(students, enrolments)
    ensures EnrolmentsLive(StudentsWithout(students, id), EnrolmentsWithout(enrolments, id))
  {
    var left := StudentsWithout(students, id);
    var q := (e: Enrolment) => e.studentId == id || StudentExists(left, e.studentId);
    forall j | 0 <= j < |enrolments| ensures q(enrolments[j]) {
      if enrolments[j].studentId != id {
        var k :| 0 <= k < |students| && students[k].id == enrolments[j].studentId;
        FilterKeeps(students, (s: Student) => s.id != id, k);
      }
    }
    FilterAll(enrolments, (e: Enrolment) => e.studentId != id, q);
  }

  /** The invariant of the six tables: every AUTOINCREMENT table keyed by its
      counter, class names unique, Grades_Scale levels unique. */
  ghost predicate TablesValid(students: seq<Student>, scale: seq<ScaleEntry>, grades: seq<Grade>,
                              attendance: seq<Attendance>, classes: seq<Class>, enrolments: seq<Enrolment>,
                              nS: int, nSc: int, nG: int, nA: int, nC: int, nE: int) {
    && Keyed(students, (s: Student) => s.id, nS)
    && Keyed(scale, (e: ScaleEntry) => e.id, nSc)
    && Keyed(grades, (g: Grade) => g.id, nG)
    && Keyed(attendance, (a: Attendance) => a.id, nA)
    && Keyed(classes, (c: Class) => c.id, nC)
    && Keyed(enrolments, (e: Enrolment) => e.id, nE)
    && ClassNamesUnique(classes)
    && LevelsUnique(scale)
  }

  /** The Grades_Scale rows put there before the program runs, keyed 1, 2, ... */
  function SeedScale(levels: seq<int>): (r: seq<ScaleEntry>)
    ensures |r| == |levels|
    ensures forall i :: 0 <= i < |levels| ==> r[i] == ScaleEntry(i + 1, levels[i])
  {
    seq(|levels|, i requires 0 <= i < |levels| => ScaleEntry(i + 1, levels[i]))
  }

  /** Distinct seeded levels and otherwise empty tables satisfy the invariant. */
  lemma SeedScaleValid(levels: seq<int>, students: seq<Student>, scale: seq<ScaleEntry>, grades: seq<Grade>,
                       attendance: seq<Attendance>, classes: seq<Class>, enrolments: seq<Enrolment>,
                       nS: int, nSc: int, nG: int, nA: int, nC: int, nE: int)
    requires forall i, j :: 0 <= i < j < |levels| ==> levels[i] != levels[j]
    requires students == [] && grades == [] && attendance == [] && classes == [] && enrolments == []
    requires scale == SeedScale(levels)
    requires nS == nG == nA == nC == nE == 1 && nSc == |levels| + 1
    ensures TablesValid(students, scale, grades, attendance, classes, enrolments, nS, nSc, nG, nA, nC, nE)
    ensures EnrolmentsLive(students, enrolments)
  {
    assert Keyed(scale, (e: ScaleEntry) => e.id, |levels| + 1);
    assert LevelsUnique(scale);
  }

  /** The rename in `update_student` keeps the invariant and every enrolment
      live. */
  lemma RenameKeepsTables(students: seq<Student>, scale: seq<ScaleEntry>, grades: seq<Grade>,
                          attendance: seq<Attendance>, classes: seq<Class>, enrolments: seq<Enrolment>,
                          nS: int, nSc: int, nG: int, nA: int, nC: int, nE: int, id: int, name: string)
    requires TablesValid(students, scale, grades, attendance, classes, enrolments, nS, nSc, nG, nA, nC, nE)
    ensures TablesValid(Rename(students, id, name), scale, grades, attendance, classes, enrolments,
                        nS, nSc, nG, nA, nC, nE)
    ensures EnrolmentsLive(students, enrolments) ==> EnrolmentsLive(Rename(students, id, name), enrolments)
  {
    var renamed := Rename(students, id, name);
    assert forall i :: 0 <= i < |renamed| ==> renamed[i].id == students[i].id;
    assert Keyed(renamed, (s: Student) => s.id, nS);
    if EnrolmentsLive(students, enrolments) {
      LiveAfterRename(students, enrolments, id, name);
    }
  }

  /** The reassignment in `update_student`, taking the next Student_Class
      key, keeps the invariant and, for an existing student, every enrolment
      live. */
  lemma ReassignKeepsTables(students: seq<Student>, scale: seq<ScaleEntry>, grades: seq<Grade>,
                            attendance: seq<Attendance>, classes: seq<Class>, enrolments: seq<Enrolment>,
                            nS: int, nSc: int, nG: int, nA: int, nC: int, nE: int, e: Enrolment)
    requires TablesValid(students, scale, grades, attendance, classes, enrolments, nS, nSc, nG, nA, nC, nE)
    requires e.id == nE && StudentExists(students, e.studentId)
    ensures TablesValid(students, scale, grades, attendance, classes,
                        EnrolmentsWithout(enrolments, e.studentId) + [e], nS, nSc, nG, nA, nC, nE + 1)
    ensures EnrolmentsLive(students, enrolments) ==>
      EnrolmentsLive(students, EnrolmentsWithout(enrolments, e.studentId) + [e])
  {
    var rest := EnrolmentsWithout(enrolments, e.studentId);
    KeyedFilter(enrolments, (x: Enrolment) => x.id, nE, (x: Enrolment) => x.studentId != e.studentId);
    KeyedAppend(rest, (x: Enrolment) => x.id, nE, e);
    if EnrolmentsLive(students, enrolments) {
      LiveAfterReassign(students, enrolments, e);
    }
  }

  /** The four DELETE statements of `delete_student` keep every table keyed
      and every remaining enrolment pointing at an existing student. */
  lemma DeleteKeepsTables(students: seq<Student>, scale: seq<ScaleEntry>, grades: seq<Grade>,
                          attendance: seq<Attendance>, classes: seq<Class>, enrolments: seq<Enrolment>,
                          nS: int, nSc: int, nG: int, nA: int, nC: int, nE: int, id: int)
    requires TablesValid(students, scale, grades, attendance, classes, enrolments, nS, nSc, nG, nA, nC, nE)
    ensures TablesValid(StudentsWithout(students, id), scale, GradesWithout(grades, id),
                        AttendanceWithout(attendance, id), classes, EnrolmentsWithout(enrolments, id),
                        nS, nSc, nG, nA, nC, nE)
    ensures EnrolmentsLive(students, enrolments) ==>
      EnrolmentsLive(StudentsWithout(students, id), EnrolmentsWithout(enrolments, id))
  {
    KeyedFilter(students, (s: Student) => s.id, nS, (s: Student) => s.id != id);
    KeyedFilter(grades, (g: Grade) => g.id, nG, (g: Grade) => g.studentId != id);
    KeyedFilter(attendance, (a: Attendance) => a.id, nA, (a: Attendance) => a.studentId != id);
    KeyedFilter(enrolments, (e: Enrolment) => e.id, nE, (e: Enrolment) => e.studentId != id);
    if EnrolmentsLive(students, enrolments) {
      LiveAfterDelete(students, enrolments, id);
    }
  }

  /** After the confirmed delete no Attendance, Grades, Student_Class or
      Students row refers to the id any more, and every other student's rows
      in each of those tables are exactly as before. */
  lemma DeleteCascade(students: seq<Student>, grades: seq<Grade>, attendance: seq<Attendance>,
                      enrolments: seq<Enrolment>, id: int, other: int)
    requires other != id
    ensures !StudentExists(StudentsWithout(students, id), id)
    ensures forall i :: 0 <= i < |GradesWithout(grades, id)| ==> GradesWithout(grades, id)[i].studentId != id
    ensures forall i :: 0 <= i < |AttendanceWithout(attendance, id)| ==>
      AttendanceWithout(attendance, id)[i].studentId != id
    ensures EnrolmentsOf(EnrolmentsWithout(enrolments, id), id) == []
    ensures Filter(StudentsWithout(students, id), (s: Student) => s.id == other)
         == Filter(students, (s: Student) => s.id == other)
    ensures Filter(GradesWithout(grades, id), (g: Grade) => g.studentId == other)
         == Filter(grades, (g: Grade) => g.studentId == other)
    ensures Filter(AttendanceWithout(attendance, id), (a: Attendance) => a.studentId == other)
         == Filter(attendance, (a: Attendance) => a.studentId == other)
    ensures EnrolmentsOf(EnrolmentsWithout(enrolments, id), other) == EnrolmentsOf(enrolments, other)
  {
    FilterFilter(students, (s: Student) => s.id != id, (s: Student) => s.id == other);
    FilterFilter(grades, (g: Grade) => g.studentId != id, (g: Grade) => g.studentId == other);
    FilterFilter(attendance, (a: Attendance) => a.studentId != id, (a: Attendance) => a.studentId == other);
    FilterFilter(enrolments, (e: Enrolment) => e.studentId != id, (e: Enrolment) => e.studentId == other);
    FilterDisjoint(enrolments, (e: Enrolment) => e.studentId != id, (e: Enrolment) => e.studentId == id);
  }

  /** The database file behind the global connection and cursor. */
  class Database {
    var students: seq<Student>
    var scale: seq<ScaleEntry>
    var grades: seq<Grade>
    var attendance: seq<Attendance>
    var classes: seq<Class>
    var enrolments: seq<Enrolment>
    // The next key each AUTOINCREMENT table hands out.
    var nextStudentId: int
    var nextScaleId: int
    var nextGradeId: int
    var nextAttendanceId: int
    var nextClassId: int
    var nextEnrolmentId: int

    ghost predicate Valid()
      reads this
    {
      TablesValid(students, scale, grades, attendance, classes, enrolments,
                  nextStudentId, nextScaleId, nextGradeId, nextAttendanceId, nextClassId, nextEnrolmentId)
    }

    ghost predicate Live()
      reads this
    {
      EnrolmentsLive(students, enrolments)
    }

    /** `create_tables` on a new file. No menu action writes Grades_Scale, so
        its rows (`levels`, in order) are whatever was put there beforehand;
        on a file the program itself creates, `levels` is empty, and then
        `add_grade` never finds a class whose level is on the scale and never
        inserts a grade. */
    constructor (levels: seq<int>)
      requires forall i, j :: 0 <= i < j < |levels| ==> levels[i] != levels[j]
      ensures Valid() && Live()
      ensures students == [] && grades == [] && attendance == [] && classes == [] && enrolments == []
      ensures scale == SeedScale(levels)
      ensures nextStudentId == 1 && nextGradeId == 1 && nextAttendanceId == 1
      ensures nextClassId == 1 && nextEnrolmentId == 1 && nextScaleId == |levels| + 1
    {
      students, grades, attendance, classes, enrolments := [], [], [], [], [];
      scale := SeedScale(levels);
      nextStudentId, nextGradeId, nextAttendanceId, nextClassId, nextEnrolmentId := 1, 1, 1, 1, 1;
      nextScaleId := |levels| + 1;
      new;
      SeedScaleValid(levels, students, scale, grades, attendance, classes, enrolments,
                     nextStudentId, nextScaleId, nextGradeId, nextAttendanceId, nextClassId, nextEnrolmentId);
    }

    /** `add_student`. The Students row is inserted and committed first. A
        blank class name ends there. A class name that no class has is
        reported and the row stays without a class. A class that exists makes
        the next statement read the unbound `student_id`, so the action
        crashes and the student is still left without a class. */
    method AddStudent(name: string, className: string, today: Date) returns (status: Status)
      requires Valid() && ValidDate(today)
      modifies this`students, this`nextStudentId
      ensures Valid() && (old(Live()) ==> Live())
      ensures students == old(students) + [Student(old(nextStudentId), name, FormatDate(today))]
      ensures !StudentExists(old(students), old(nextStudentId))
      ensures nextStudentId == old(nextStudentId) + 1
      ensures status == (if className == "" then Ok
                         else if FindClass(classes, className).None? then ClassNotFound
                         else Crashed(NameError))
    {
      var row := Student(nextStudentId, name, FormatDate(today));
      KeyedAppend(students, (s: Student) => s.id, nextStudentId, row);
      students := students + [row];
      nextStudentId := nextStudentId + 1;
      assert forall k :: 0 <= k < |old(students)| ==> students[k] == old(students)[k];
      if className == "" {
        return Ok;
      }
      var found := FindClass(classes, className);
      if found.None? {
        return ClassNotFound;
      }
      status := Crashed(NameError);
    }

    /** `update_student`. A non-blank name is written and committed, then the
        confirmation message reads `old_name`, a local of the function that this
        path never assigns, and the action crashes with UnboundLocalError. A
        blank name on a missing id crashes on `fetchone()[0]`.
        Otherwise, if the answer is "yes" and a class name is given, the class
        must exist; then the student's enrolments are deleted and one to the
        new class is inserted. */
    method UpdateStudent(id: int, newName: string, updateAnswer: string, newClassName: string)
      returns (status: Status)
      requires Valid()
      modifies this`students, this`enrolments, this`nextEnrolmentId
      ensures Valid() && (old(Live()) ==> Live())
      ensures status == (if newName != "" then Crashed(UnboundLocalError)
                         else if !StudentExists(old(students), id) then Crashed(TypeError)
                         else if !SaysYes(updateAnswer) || newClassName == "" then Ok
                         else if FindClass(classes, newClassName).None? then ClassNotFound
                         else Ok)
      ensures students == (if newName != "" then Rename(old(students), id, newName) else old(students))
      ensures Reassigns(old(students), classes, id, newName, updateAnswer, newClassName) ==>
        && enrolments == EnrolmentsWithout(old(enrolments), id)
                         + [Enrolment(old(nextEnrolmentId), id, FindClass(classes, newClassName).value.id)]
        && nextEnrolmentId == old(nextEnrolmentId) + 1
      ensures !Reassigns(old(students), classes, id, newName, updateAnswer, newClassName) ==>
        enrolments == old(enrolments) && nextEnrolmentId == old(nextEnrolmentId)
    {
      if newName != "" {
        RenameKeepsTables(students, scale, grades, attendance, classes, enrolments, nextStudentId, nextScaleId,
                          nextGradeId, nextAttendanceId, nextClassId, nextEnrolmentId, id, newName);
        students := Rename(students, id, newName);
        return Crashed(UnboundLocalError);
      }
      if !StudentExists(students, id) {
        return Crashed(TypeError);
      }
      if !SaysYes(updateAnswer) || newClassName == "" {
        return Ok;
      }
      var found := FindClass(classes, newClassName);
      if found.None? {
        return ClassNotFound;
      }
      var row := Enrolment(nextEnrolmentId, id, found.value.id);
      ReassignKeepsTables(students, scale, grades, attendance, classes, enrolments, nextStudentId, nextScaleId,
                          nextGradeId, nextAttendanceId, nextClassId, nextEnrolmentId, row);
      enrolments := EnrolmentsWithout(enrolments, id) + [row];
      nextEnrolmentId := nextEnrolmentId + 1;
      status := Ok;
    }

    /** `delete_student`: after the existence check and a "yes", four DELETE
        statements remove the student's Attendance rows, Grades rows,
        Student_Class rows and finally the Students row. */
    method DeleteStudent(id: int, answer: string) returns (status: Status)
      requires Valid()
      modifies this`attendance, this`grades, this`enrolments, this`students
      ensures Valid() && (old(Live()) ==> Live())
      ensures status == (if !StudentExists(old(students), id) then StudentNotFound
                         else if !SaysYes(answer) then Cancelled
                         else Ok)
      ensures status == Ok ==>
        && attendance == AttendanceWithout(old(attendance), id)
        && grades == GradesWithout(old(grades), id)
        && enrolments == EnrolmentsWithout(old(enrolments), id)
        && students == StudentsWithout(old(students), id)
      ensures status != Ok ==>
        attendance == old(attendance) && grades == old(grades)
        && enrolments == old(enrolments) && students == old(students)
    {
      if !StudentExists(students, id) {
        return StudentNotFound;
      }
      if !SaysYes(answer) {
        return Cancelled;
      }
      DeleteKeepsTables(students, scale, grades, attendance, classes, enrolments, nextStudentId, nextScaleId,
                        nextGradeId, nextAttendanceId, nextClassId, nextEnrolmentId, id);
      attendance, grades, enrolments, students :=
        AttendanceWithout(attendance, id), GradesWithout(grades, id),
        EnrolmentsWithout(enrolments, id), StudentsWithout(students, id);
      status := Ok;
    }

    /** `add_grade`: there is no check that the student exists. The grade is
        inserted only when the student's first joined class has a level listed
        in Grades_Scale; the grade value itself is never checked. */
    method AddGrade(id: int, subject: string, grade: int) returns (status: Status)
      requires Valid()
      modifies this`grades, this`nextGradeId
      ensures Valid()
      ensures status == GradeCheck(enrolments, classes, scale, id)
      ensures grades == (if status == Ok then old(grades) + [Grade(old(nextGradeId), id, subject, grade)]
                         else old(grades))
      ensures nextGradeId == (if status == Ok then old(nextGradeId) + 1 else old(nextGradeId))
    {
      var level := AssignedLevel(enrolments, classes, id);
      if level.None? {
        return NotAssigned;
      }
      if !InScale(scale, level.value) {
        return LevelNotInScale;
      }
      var row := Grade(nextGradeId, id, subject, grade);
      KeyedAppend(grades, (g: Grade) => g.id, nextGradeId, row);
      grades := grades + [row];
      nextGradeId := nextGradeId + 1;
      status := Ok;
    }

    /** `add_attendance`: there is no check that the student exists. A typed
        date is stored as typed; a blank one sends the program to the default
        `date.today()`, where `date` is the still unbound local variable, so the
        action crashes. The student is present exactly when the status answer
        is "present" in any letter case. */
    method AddAttendance(id: int, dateInput: string, statusAnswer: string) returns (status: Status)
      requires Valid()
      modifies this`attendance, this`nextAttendanceId
      ensures Valid()
      ensures status == (if dateInput == "" then Crashed(UnboundLocalError) else Ok)
      ensures attendance == (if status == Ok
                             then old(attendance) + [Attendance(old(nextAttendanceId), id, dateInput,
                                                                Lower(statusAnswer) == "present")]
                             else old(attendance))
      ensures nextAttendanceId == (if status == Ok then old(nextAttendanceId) + 1 else old(nextAttendanceId))
    {
      if dateInput == "" {
        return Crashed(UnboundLocalError);
      }
      var row := Attendance(nextAttendanceId, id, dateInput, Lower(statusAnswer) == "present");
      KeyedAppend(attendance, (a: Attendance) => a.id, nextAttendanceId, row);
      attendance := attendance + [row];
      nextAttendanceId := nextAttendanceId + 1;
      status := Ok;
    }

    /** `add_class`: the level must be 1 to 6, and the name must be new, or the
        INSERT violates the UNIQUE `class_name` and the uncaught error ends
        the program. Whether Grades_Scale lists the level is not checked. */
    method AddClass(name: string, level: int) returns (status: Status)
      requires Valid()
      modifies this`classes, this`nextClassId
      ensures Valid()
      ensures status == (if level < 1 || level > 6 then InvalidGradeLevel
                         else if FindClass(old(classes), name).Some? then Crashed(IntegrityError)
                         else Ok)
      ensures classes == (if status == Ok then old(classes) + [Class(old(nextClassId), name, level)]
                          else old(classes))
      ensures nextClassId == (if status == Ok then old(nextClassId) + 1 else old(nextClassId))
    {
      if level < 1 || level > 6 {
        return InvalidGradeLevel;
      }
      if FindClass(classes, name).Some? {
        return Crashed(IntegrityError);
      }
      var row := Class(nextClassId, name, level);
      KeyedAppend(classes, (c: Class) => c.id, nextClassId, row);
      classes := classes + [row];
      nextClassId := nextClassId + 1;
      status := Ok;
    }

    /** `assign_student_to_class`: the typed number picks a class from the
        numbered list; one enrolment is inserted and none removed, so a
        student may end up in several classes. There is no check that the
        student exists. */
    method AssignStudentToClass(id: int, choice: int) returns (status: Status)
      requires Valid()
      modifies this`enrolments, this`nextEnrolmentId
      ensures Valid()
      ensures status == (if classes == [] then NoClasses
                         else if PickClass(classes, choice).None? then InvalidChoice
                         else Ok)
      ensures enrolments == (if status == Ok
                             then old(enrolments) + [Enrolment(old(nextEnrolmentId), id, classes[choice - 1].id)]
                             else old(enrolments))
      ensures nextEnrolmentId == (if status == Ok then old(nextEnrolmentId) + 1 else old(nextEnrolmentId))
    {
      if classes == [] {
        return NoClasses;
      }
      var picked := PickClass(classes, choice);
      if picked.None? {
        return InvalidChoice;
      }
      var row := Enrolment(nextEnrolmentId, id, picked.value.id);
      KeyedAppend(enrolments, (e: Enrolment) => e.id, nextEnrolmentId, row);
      enrolments := enrolments + [row];
      nextEnrolmentId := nextEnrolmentId + 1;
      status := Ok;
    }

    /** `assign_student_to_class` with the student-existence check its
        comment refers to: an unknown id is refused, so every enrolment keeps
        referring to a student that exists. */
    method AssignStudentToClassChecked(id: int, choice: int) returns (status: Status)
      requires Valid()
      modifies this`enrolments, this`nextEnrolmentId
      ensures Valid() && (old(Live()) ==> Live())
      ensures status == (if !StudentExists(students, id) then StudentNotFound
                         else if classes == [] then NoClasses
                         else if PickClass(classes, choice).None? then InvalidChoice
                         else Ok)
      ensures enrolments == (if status == Ok
                             then old(enrolments) + [Enrolment(old(nextEnrolmentId), id, classes[choice - 1].id)]
                             else old(enrolments))
      ensures nextEnrolmentId == (if status == Ok then old(nextEnrolmentId) + 1 else old(nextEnrolmentId))
    {
      if !StudentExists(students, id) {
        return StudentNotFound;
      }
      status := AssignStudentToClass(id, choice);
    }
  }

  /** The reassignment branch of `update_student` is taken. */
  predicate Reassigns(students: seq<Student>, classes: seq<Class>, id: int,
                      newName: string, updateAnswer: string, newClassName: string) {
    && newName == ""
    && StudentExists(students, id)
    && SaysYes(updateAnswer)
    && newClassName != ""
    && FindClass(classes, newClassName).Some?
  }

  /** With every enrolment referring to an existing student, a newly added
      student (whose id no existing student has) is listed as "Unassigned". */
  lemma NewStudentUnassigned(students: seq<Student>, enrolments: seq<Enrolment>, classes: seq<Class>, s: Student)
    requires EnrolmentsLive(students, enrolments) && !StudentExists(students, s.id)
    ensures ViewStudents(students + [s], enrolments, classes)
         == ViewStudents(students, enrolments, classes) + [Listing(s.id, s.name, "Unassigned")]
  {
    ViewAfterAddStudent(students, enrolments, classes, s);
  }

  /** As written, the missing check lets an enrolment name a student that does
      not exist yet: on an empty Students table with one class, assigning id 1
      to class 1 and then adding "Ana" (who receives id 1) lists Ana in that
      class instead of "Unassigned". */
  lemma DanglingEnrolmentAttachesToNewStudent(registered: string)
    ensures PickClass([Class(1, "Room1", 3)], 1) == Some(Class(1, "Room1", 3))
    ensures !EnrolmentsLive([], [Enrolment(1, 1, 1)])
    ensures ViewStudents([Student(1, "Ana", registered)], [Enrolment(1, 1, 1)], [Class(1, "Room1", 3)])
         == [Listing(1, "Ana", "Room1")]
  {
    var classes := [Class(1, "Room1", 3)];
    var e := Enrolment(1, 1, 1);
    var s := Student(1, "Ana", registered);
    assert EnrolmentsOf([e], 1) == [e];
    assert ClassNameOf(classes, 1) == Some("Room1");
    assert RowsFor(s, [e], classes) == [JoinRow(1, "Ana", Some("Room1"))];
    assert JoinRows([s], [e], classes) == [JoinRow(1, "Ana", Some("Room1"))];
    assert ToListing(JoinRow(1, "Ana", Some("Room1"))) == Listing(1, "Ana", "Room1");
    assert !StudentExists([], 1);
  }

  /** A new database whose Grades_Scale was seeded with `levels`, after
      `add_class` has added "Room1" at level 3. */
  method NewSchoolWithRoom(levels: seq<int>) returns (db: Database)
    requires forall i, j :: 0 <= i < j < |levels| ==> levels[i] != levels[j]
    ensures fresh(db) && db.Valid()
    ensures db.classes == [Class(1, "Room1", 3)]
    ensures db.students == [] && db.enrolments == []
    ensures db.nextStudentId == 1 && db.nextEnrolmentId == 1
  {
    db := new Database(levels);
    var status := db.AddClass("Room1", 3);
  }

  /** On that database, assign the still missing student 1 to the first
      class listed: the assignment is accepted. */
  method AssignMissingStudent(db: Database) returns (assignment: Status)
    requires db.Valid()
    requires db.classes == [Class(1, "Room1", 3)]
    requires db.students == [] && db.enrolments == [] && db.nextEnrolmentId == 1
    modifies db`enrolments, db`nextEnrolmentId
    ensures db.Valid() && assignment == Ok
    ensures db.enrolments == [Enrolment(1, 1, 1)] && !db.Live()
  {
    assignment := db.AssignStudentToClass(1, 1);
    assert [] + [Enrolment(1, 1, 1)] == [Enrolment(1, 1, 1)];
    DanglingEnrolmentAttachesToNewStudent("");
  }

  /** Then add "Ana" with no class: she receives id 1, and `view_students`
      lists her in Room1. */
  method AddStudentAndView(db: Database, today: Date) returns (listing: seq<Listing>)
    requires db.Valid() && ValidDate(today)
    requires db.classes == [Class(1, "Room1", 3)]
    requires db.students == [] && db.enrolments == [Enrolment(1, 1, 1)] && db.nextStudentId == 1
    modifies db`students, db`nextStudentId
    ensures db.students == [Student(1, "Ana", FormatDate(today))]
    ensures listing == [Listing(1, "Ana", "Room1")]
  {
    var status := db.AddStudent("Ana", "", today);
    assert [] + [Student(1, "Ana", FormatDate(today))] == [Student(1, "Ana", FormatDate(today))];
    DanglingEnrolmentAttachesToNewStudent(FormatDate(today));
    listing := ViewStudents(db.students, db.enrolments, db.classes);
  }

  /** The whole scenario from a new database: the assignment of a missing
      student is accepted, and the student added next is listed in that
      class. */
  method DanglingEnrolmentScenario(levels: seq<int>, today: Date) returns (assignment: Status, listing: seq<Listing>)
    requires forall i, j :: 0 <= i < j < |levels| ==> levels[i] != levels[j]
    requires ValidDate(today)
    ensures assignment == Ok
    ensures listing == [Listing(1, "Ana", "Room1")]
  {
    var db := NewSchoolWithRoom(levels);
    assignment := AssignMissingStudent(db);
    listing := AddStudentAndView(db, today);
  }
}
