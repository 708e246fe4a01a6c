/** The three-table variant of the school database (school-management-system.py):
    Students, Grades and Attendance, each an AUTOINCREMENT table. Menu actions
    that write are methods of `Database`; the per-student views and the CSV
    export are functions of the table contents. Values the program reads from
    the console arrive as parameters, and the current date as a `Date`. */
module SchoolManagement {
  import opened Common
  import opened Dates
  import opened SqlValues
  import opened StudentTable

  /** A row of Grades: id, student_id, subject, grade, date. */
  datatype Grade = Grade(id: int, studentId: int, subject: string, grade: int, date: string)

  /** A row of Attendance: id, student_id, date, present. */
  datatype Attendance = Attendance(id: int, studentId: int, date: string, present: bool)

  /** How a menu action ended. `Crashed` is an exception the program does not
      catch: the action stops there, keeping only what it already committed. */
  datatype Status = Ok | StudentNotFound | Cancelled | Crashed(error: PyError)

  /** The rows `view_student_grades` prints: `SELECT * FROM Grades WHERE
      student_id = ...`, exactly the Grades rows of that student. */
  function StudentGrades(grades: seq<Grade>, id: int): (r: seq<Grade>)
    ensures |r| <= |grades|
    ensures forall i :: 0 <= i < |r| ==> r[i].studentId == id && r[i] in grades
    ensures forall i :: 0 <= i < |grades| && grades[i].studentId == id ==> grades[i] in r
  {
    var p := (g: Grade) => g.studentId == id;
    FilterAll(grades, p, (g: Grade) => g in grades);
    forall i | 0 <= i < |grades| && p(grades[i]) ensures grades[i] in Filter(grades, p) {
      FilterKeeps(grades, p, i);
    }
    Filter(grades, p)
  }

  /** The rows `view_student_attendance` prints: `SELECT * FROM Attendance
      WHERE student_id = ...`, exactly the Attendance rows of that student. */
  function StudentAttendance(attendance: seq<Attendance>, id: int): (r: seq<Attendance>)
    ensures |r| <= |attendance|
    ensures forall i :: 0 <= i < |r| ==> r[i].studentId == id && r[i] in attendance
    ensures forall i :: 0 <= i < |attendance| && attendance[i].studentId == id ==> attendance[i] in r
  {
    var p := (a: Attendance) => a.studentId == id;
    FilterAll(attendance, p, (a: Attendance) => a in attendance);
    forall i | 0 <= i < |attendance| && p(attendance[i]) ensures attendance[i] in Filter(attendance, p) {
      FilterKeeps(attendance, p, i);
    }
    Filter(attendance, p)
  }

  /** What the confirmed delete leaves of Grades and Attendance. */
  function GradesWithout(grades: seq<Grade>, id: int): seq<Grade> {
    Filter(grades, (g: Grade) => g.studentId != id)
  }

  function AttendanceWithout(attendance: seq<Attendance>, id: int): seq<Attendance> {
    Filter(attendance, (a: Attendance) => a.studentId != id)
  }

  /** The database file behind the global connection and cursor. */
  class Database {
    var students: seq<Student>
    var grades: seq<Grade>
    var attendance: seq<Attendance>
    // The next key each AUTOINCREMENT table hands out.
    var nextStudentId: int
    var nextGradeId: int
    var nextAttendanceId: int

    ghost predicate Valid()
      reads this
    {
      && Keyed(students, (s: Student) => s.id, nextStudentId)
      && Keyed(grades, (g: Grade) => g.id, nextGradeId)
      && Keyed(attendance, (a: Attendance) => a.id, nextAttendanceId)
    }

    /** `create_tables` on a new database file. */
    constructor ()
      ensures Valid()
      ensures students == [] && grades == [] && attendance == []
      ensures nextStudentId == 1 && nextGradeId == 1 && nextAttendanceId == 1
    {
      students, grades, attendance := [], [], [];
      nextStudentId, nextGradeId, nextAttendanceId := 1, 1, 1;
    }

    /** `add_student`: the INSERT always succeeds, because `name` carries no
        UNIQUE constraint; the row gets a key no row has had before and
        today's date as registration date. */
    method AddStudent(name: string, today: Date) returns (id: int)
      requires Valid() && ValidDate(today)
      modifies this`students, this`nextStudentId
      ensures Valid()
      ensures !StudentExists(old(students), id)
      ensures students == old(students) + [Student(id, name, FormatDate(today))]
      ensures id == old(nextStudentId) && nextStudentId == id + 1
    {
      id := nextStudentId;
      KeyedAppend(students, (s: Student) => s.id, nextStudentId, Student(id, name, FormatDate(today)));
      students := students + [Student(id, name, FormatDate(today))];
      nextStudentId := nextStudentId + 1;
    }

    /** `update_student`. A non-blank name is written and committed, after
        which the confirmation message reads `old_name`, a local of the function
        that this path never assigns, and the action crashes with
        UnboundLocalError. A blank name keeps the table as it is, but crashes on
        `fetchone()[0]` when the id has no row. */
    method UpdateStudent(id: int, newName: string) returns (status: Status)
      requires Valid()
      modifies this`students
      ensures Valid()
      ensures status == (if newName != "" then Crashed(UnboundLocalError)
                         else if StudentExists(old(students), id) then Ok
                         else Crashed(TypeError))
      ensures students == (if newName != "" then Rename(old(students), id, newName) else old(students))
    {
      if newName != "" {
        students := Rename(students, id, newName);
        assert forall i :: 0 <= i < |students| ==> students[i].id == old(students)[i].id;
        return Crashed(UnboundLocalError);
      }
      if !StudentExists(students, id) {
        return Crashed(TypeError);
      }
      status := Ok;
    }

    /** `delete_student`: after the existence check and a "yes", deletes the
        student's Grades rows and then their Attendance rows. The Students row
        itself is not deleted. */
    method DeleteStudent(id: int, answer: string) returns (status: Status)
      requires Valid()
      modifies this`grades, this`attendance
      ensures Valid()
      ensures status == (if !StudentExists(students, id) then StudentNotFound
                         else if !SaysYes(answer) then Cancelled
                         else Ok)
      ensures status == Ok ==> grades == GradesWithout(old(grades), id)
      ensures status == Ok ==> attendance == AttendanceWithout(old(attendance), id)
      ensures status != Ok ==> grades == old(grades) && attendance == old(attendance)
      ensures students == old(students)
    {
      if !StudentExists(students, id) {
        return StudentNotFound;
      }
      if !SaysYes(answer) {
        return Cancelled;
      }
      KeyedFilter(grades, (g: Grade) => g.id, nextGradeId, (g: Grade) => g.studentId != id);
      grades := GradesWithout(grades, id);
      KeyedFilter(attendance, (a: Attendance) => a.id, nextAttendanceId, (a: Attendance) => a.studentId != id);
      attendance := AttendanceWithout(attendance, id);
      status := Ok;
    }

    /** `add_grade`: only for an existing student; the grade itself is any
        integer, and the row's date is today. */
    method AddGrade(id: int, subject: string, grade: int, today: Date) returns (status: Status)
      requires Valid() && ValidDate(today)
      modifies this`grades, this`nextGradeId
      ensures Valid()
      ensures status == (if StudentExists(students, id) then Ok else StudentNotFound)
      ensures grades == (if status == Ok
                         then old(grades) + [Grade(old(nextGradeId), id, subject, grade, FormatDate(today))]
                         else old(grades))
      ensures nextGradeId == (if status == Ok then old(nextGradeId) + 1 else old(nextGradeId))
    {
      if !StudentExists(students, id) {
        return StudentNotFound;
      }
      var row := Grade(nextGradeId, id, subject, grade, FormatDate(today));
      KeyedAppend(grades, (g: Grade) => g.id, nextGradeId, row);
      grades := grades + [row];
      nextGradeId := nextGradeId + 1;
      status := Ok;
    }

    /** `add_attendance`: only for an existing student; the student counts as
        present exactly when the answer is "yes" in any letter case, and the
        row's date is today. */
    method AddAttendance(id: int, answer: string, today: Date) returns (status: Status)
      requires Valid() && ValidDate(today)
      modifies this`attendance, this`nextAttendanceId
      ensures Valid()
      ensures status == (if StudentExists(students, id) then Ok else StudentNotFound)
      ensures attendance == (if status == Ok
                             then old(attendance) + [Attendance(old(nextAttendanceId), id, FormatDate(today), SaysYes(answer))]
                             else old(attendance))
      ensures nextAttendanceId == (if status == Ok then old(nextAttendanceId) + 1 else old(nextAttendanceId))
    {
      if !StudentExists(students, id) {
        return StudentNotFound;
      }
      var row := Attendance(nextAttendanceId, id, FormatDate(today), SaysYes(answer));
      KeyedAppend(attendance, (a: Attendance) => a.id, nextAttendanceId, row);
      attendance := attendance + [row];
      nextAttendanceId := nextAttendanceId + 1;
      status := Ok;
    }
  }

  /** After a confirmed delete, `view_student_grades` finds nothing for the
      student and exactly what it found before for every other student. */
  lemma GradesAfterDelete(grades: seq<Grade>, id: int, other: int)
    requires other != id
    ensures StudentGrades(GradesWithout(grades, id), id) == []
    ensures StudentGrades(GradesWithout(grades, id), other) == StudentGrades(grades, other)
  {
    FilterDisjoint(grades, (g: Grade) => g.studentId != id, (g: Grade) => g.studentId == id);
    FilterFilter(grades, (g: Grade) => g.studentId != id, (g: Grade) => g.studentId == other);
  }

  /** The same for `view_student_attendance`. */
  lemma AttendanceAfterDelete(attendance: seq<Attendance>, id: int, other: int)
    requires other != id
    ensures StudentAttendance(AttendanceWithout(attendance, id), id) == []
    ensures StudentAttendance(AttendanceWithout(attendance, id), other) == StudentAttendance(attendance, other)
  {
    FilterDisjoint(attendance, (a: Attendance) => a.studentId != id, (a: Attendance) => a.studentId == id);
    FilterFilter(attendance, (a: Attendance) => a.studentId != id, (a: Attendance) => a.studentId == other);
  }

  /** A grade added for a student shows up last in that student's grades and
      in no other student's. */
  lemma GradesAfterAdd(grades: seq<Grade>, g: Grade, id: int)
    ensures StudentGrades(grades + [g], id)
         == StudentGrades(grades, id) + (if g.studentId == id then [g] else [])
  {
    FilterAppend(grades, [g], (x: Grade) => x.studentId == id);
  }

  /** The same for attendance. */
  lemma AttendanceAfterAdd(attendance: seq<Attendance>, a: Attendance, id: int)
    ensures StudentAttendance(attendance + [a], id)
         == StudentAttendance(attendance, id) + (if a.studentId == id then [a] else [])
  {
    FilterAppend(attendance, [a], (x: Attendance) => x.studentId == id);
  }

  // ---------------------------------------------------------------------
  // export_to_csv

  /** The table names `export_to_csv` accepts, after lower-casing the input. */
  const ExportTables: seq<string> := ["students", "grades", "attendance"]

  /** The column names the cursor reports for `SELECT * FROM <table>`. */
  function Columns(table: string): seq<string>
    requires table in ExportTables
  {
    if table == "students" then ["id", "name", "registration_date"]
    else if table == "grades" then ["id", "student_id", "subject", "grade", "date"]
    else ["id", "student_id", "date", "present"]
  }

  /** The header row: one TEXT value per column name. */
  function Header(table: string): (r: seq<Value>)
    requires table in ExportTables
    ensures |r| == |Columns(table)|
    ensures forall i :: 0 <= i < |r| ==> r[i] == Text(Columns(table)[i])
  {
    var names := Columns(table);
    seq(|names|, i requires 0 <= i < |names| => Text(names[i]))
  }

  /** Each table's rows as the cursor returns them; `present` is stored as
      the integer 1 or 0. */
  function StudentValues(s: Student): seq<Value> {
    [Int(s.id), Text(s.name), Text(s.registered)]
  }

  function GradeValues(g: Grade): seq<Value> {
    [Int(g.id), Int(g.studentId), Text(g.subject), Int(g.grade), Text(g.date)]
  }

  function AttendanceValues(a: Attendance): seq<Value> {
    [Int(a.id), Int(a.studentId), Text(a.date), Int(if a.present then 1 else 0)]
  }

  /** `SELECT * FROM <table>` for one of the exportable tables: one line per
      row of that table, each as wide as its header. */
  function TableRows(students: seq<Student>, grades: seq<Grade>, attendance: seq<Attendance>,
                     table: string): (r: seq<seq<Value>>)
    requires table in ExportTables
    ensures |r| == if table == "students" then |students| else if table == "grades" then |grades| else |attendance|
    ensures forall i :: 0 <= i < |r| ==> |r[i]| == |Header(table)|
  {
    if table == "students" then MapSeq(students, StudentValues)
    else if table == "grades" then MapSeq(grades, GradeValues)
    else MapSeq(attendance, AttendanceValues)
  }

  /** `f"{table_name}_{today}.csv"` with today as `%Y-%m-%d`. */
  function ExportFileName(table: string, today: Date): (r: string)
    requires ValidDate(today)
    ensures |r| == |table| + 15
    ensures r[..|table|] == table && r[|table|] == '_'
    ensures ParseDate(r[|table| + 1..|table| + 11]) == Some(today)
    ensures r[|table| + 11..] == ".csv"
  {
    var r := table + "_" + FormatDate(today) + ".csv";
    assert r[|table| + 1..|table| + 11] == FormatDate(today);
    DateRoundTrip(today);
    r
  }

  datatype Export =
    | InvalidTable                                   // the name is not on the list
    | NoData                                         // the table has no rows: no file
    | Written(file: string, lines: seq<seq<Value>>)  // the CSV file and its rows

  /** `export_to_csv`: the lower-cased table name must be on the list; an
      empty table writes nothing; otherwise the file holds the header row of
      column names and then every row of the table. */
  function ExportToCsv(students: seq<Student>, grades: seq<Grade>, attendance: seq<Attendance>,
                       tableInput: string, today: Date): (r: Export)
    requires ValidDate(today)
    ensures r.InvalidTable? <==> Lower(tableInput) !in ExportTables
    ensures r.NoData? <==>
      Lower(tableInput) in ExportTables && TableRows(students, grades, attendance, Lower(tableInput)) == []
    ensures r.Written? ==> r.file == ExportFileName(Lower(tableInput), today)
    ensures r.Written? ==>
      var rows := TableRows(students, grades, attendance, Lower(tableInput));
      |r.lines| == |rows| + 1 && r.lines[1..] == rows
  {
    var table := Lower(tableInput);
    if table !in ExportTables then InvalidTable
    else
      var rows := TableRows(students, grades, attendance, table);
      if rows == [] then NoData
      else Written(ExportFileName(table, today), [Header(table)] + rows)
  }

  /** Reading a CSV row back into a table row; `None` when the row has the
      wrong shape. */
  function ReadStudent(v: seq<Value>): Option<Student> {
    if |v| == 3 && v[0].Int? && v[1].Text? && v[2].Text?
    then Some(Student(v[0].i, v[1].t, v[2].t)) else None
  }

  function ReadGrade(v: seq<Value>): Option<Grade> {
    if |v| == 5 && v[0].Int? && v[1].Int? && v[2].Text? && v[3].Int? && v[4].Text?
    then Some(Grade(v[0].i, v[1].i, v[2].t, v[3].i, v[4].t)) else None
  }

  function ReadAttendance(v: seq<Value>): Option<Attendance> {
    if |v| == 4 && v[0].Int? && v[1].Int? && v[2].Text? && v[3].Int? && (v[3].i == 0 || v[3].i == 1)
    then Some(Attendance(v[0].i, v[1].i, v[2].t, v[3].i == 1)) else None
  }

  /** Each written row reads back as the row it came from. */
  lemma ReadStudentInverts(s: Student)
    ensures ReadStudent(StudentValues(s)) == Some(s)
  {
  }

  lemma ReadGradeInverts(g: Grade)
    ensures ReadGrade(GradeValues(g)) == Some(g)
  {
  }

  lemma ReadAttendanceInverts(a: Attendance)
    ensures ReadAttendance(AttendanceValues(a)) == Some(a)
  {
  }

  /** Round trip of the export: the file starts with the column names and its
      other rows read back as exactly the rows of the table, in table order. */
  lemma ExportRoundTrip(students: seq<Student>, grades: seq<Grade>, attendance: seq<Attendance>,
                        tableInput: string, today: Date)
    requires ValidDate(today)
    requires ExportToCsv(students, grades, attendance, tableInput, today).Written?
    ensures var lines := ExportToCsv(students, grades, attendance, tableInput, today).lines;
      && lines[0] == Header(Lower(tableInput))
      && (Lower(tableInput) == "students" ==> ReadRows(lines[1..], ReadStudent) == Some(students))
      && (Lower(tableInput) == "grades" ==> ReadRows(lines[1..], ReadGrade) == Some(grades))
      && (Lower(tableInput) == "attendance" ==> ReadRows(lines[1..], ReadAttendance) == Some(attendance))
  {
    var table := Lower(tableInput);
    var lines := ExportToCsv(students, grades, attendance, tableInput, today).lines;
    assert lines[1..] == TableRows(students, grades, attendance, table);
    if table == "students" {
      forall x ensures ReadStudent(StudentValues(x)) == Some(x) {
        ReadStudentInverts(x);
      }
      ReadMapRows(students, StudentValues, ReadStudent);
    } else if table == "grades" {
      forall x ensures ReadGrade(GradeValues(x)) == Some(x) {
        ReadGradeInverts(x);
      }
      ReadMapRows(grades, GradeValues, ReadGrade);
    } else {
      forall x ensures ReadAttendance(AttendanceValues(x)) == Some(x) {
        ReadAttendanceInverts(x);
      }
      ReadMapRows(attendance, AttendanceValues, ReadAttendance);
    }
  }
}
