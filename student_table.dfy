/** The Students table, declared the same way by both variants:
    `id INTEGER PRIMARY KEY AUTOINCREMENT, name TEXT NOT NULL,
    registration_date TEXT NOT NULL DEFAULT CURRENT_DATE`. `name` has no
    UNIQUE constraint in either. */
module StudentTable {

  datatype Student = Student(id: int, name: string, registered: string)

  /** `SELECT * FROM Students WHERE id = ...` finds a row. */
  predicate StudentExists(students: seq<Student>, id: int) {
    exists i :: 0 <= i < |students| && students[i].id == id
  }

  /** `UPDATE Students SET name = ? WHERE id = ...`: every row with that id
      gets the new name, and nothing else changes. */
  function Rename(students: seq<Student>, id: int, name: string): (r: seq<Student>)
    ensures |r| == |students|
    ensures forall i :: 0 <= i < |r| ==>
      r[i].id == students[i].id && r[i].registered == students[i].registered
    ensures forall i :: 0 <= i < |r| ==>
      r[i].name == (if students[i].id == id then name else students[i].name)
    ensures !StudentExists(students, id) ==> r == students
  {
    seq(|students|, i requires 0 <= i < |students| =>
      if students[i].id == id then students[i].(name := name) else students[i])
  }
}
