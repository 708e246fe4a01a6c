# School management database, modelled in Dafny

The repository has two console programs over one SQLite file. Each offers a
menu of actions on a school database:

- `school-management-system.py` has three tables: Students, Grades and
  Attendance.
- `school-management-system2.py` has six: Students, Grades_Scale, Grades,
  Attendance, Classes and Student_Class.

This project models how each menu action changes the tables and which
checks it makes before doing so. The read-only views and the CSV exports are
modelled as functions of the table contents.

Each variant is a class `Database` with one `seq` field per table, in rowid
order (the order a plain table scan returns). Each table also has a counter
for the next AUTOINCREMENT key. The actions that write are methods with
field-granular `modifies` clauses. Their `ensures` state the returned status
and the whole new state. `Valid()` is kept by every method. It says:

- every table's keys increase in scan order and lie below the table's counter;
- class names are unique, and so are the levels in Grades_Scale (both are
  UNIQUE columns).

In the six-table variant a second invariant, `Live()`, says that every
Student_Class row names a student that exists. SQLite does not enforce the
foreign keys here, because `PRAGMA foreign_keys` is never set. So `Live()` is
proved only where the actions keep it, and the one action that breaks it is
reported under Findings.

Values the programs read from the console become parameters: ids, names,
answers to yes/no prompts, and 1-based menu choices. The current date also
becomes a parameter, of type `Dates.Date`. A Python exception that nothing
catches is the result `Crashed(error)`, and the state is what was committed
before it.

Modules:

- `Common`: `Option`, the Python errors, and the row filter behind every
  `WHERE` and `DELETE`. It also has `str.lower` for ASCII text and the
  AUTOINCREMENT key invariant.
- `Dates`: the `%Y-%m-%d` date text and its parser.
- `SqlValues`: SQLite column values and the order `ORDER BY` puts them in,
  plus a sort proved to order rows and to keep the same rows (a permutation).
- `StudentTable`: the Students table that both variants declare alike.
- `SchoolManagement`: the three-table variant.
- `SchoolManagement2`: the six-table variant.

## Model

| member | source | states |
|---|---|---|
| Common.LowerMatches | school-management-system.py:127 | `answer.lower() == w` for a lower-case word holds exactly when the answer spells `w` with each letter in either case |
| Common.KeyedAppend | school-management-system.py:14 | an INSERT that takes the table's next AUTOINCREMENT key keeps keys increasing and below the new counter |
| Common.KeyedFilter | school-management-system.py:133-134 | a DELETE keeps the remaining keys increasing and below the counter |
| Common.FilterFilter | school-management-system2.py:225-228 | deleting one student's rows and then selecting another student's rows gives the same rows as selecting them directly |
| Dates.DateRoundTrip | school-management-system.py:233 | the `%Y-%m-%d` text of a date parses back to the same date |
| SqlValues.KeyLeTransitive | school-management-system2.py:461 | the `ORDER BY k1, k2` order on rows is transitive |
| SqlValues.KeyLeTotal | school-management-system2.py:461 | any two rows are comparable under `ORDER BY` |
| SqlValues.SortBy | school-management-system2.py:354 | the result of `ORDER BY` has non-decreasing keys and the same rows, each as often (multiset equality) |
| SqlValues.ReadMapRows | school-management-system.py:241 | rows written as values read back as the same rows when each row's reader inverts its writer |
| StudentTable.Rename | school-management-system.py:105-106 | `UPDATE Students SET name` changes the name of exactly the rows with that id, keeps ids and dates, and changes nothing when the id is missing |
| SchoolManagement.StudentGrades | school-management-system.py:167-176 | `view_student_grades` shows exactly the Grades rows of the typed id: each shown row is a Grades row of that student, and every such row is shown |
| SchoolManagement.StudentAttendance | school-management-system.py:203-212 | `view_student_attendance` shows exactly the Attendance rows of the typed id, in both directions |
| SchoolManagement.Database.constructor | school-management-system.py:10-38 | the three tables start empty with every counter at 1 |
| SchoolManagement.Database.AddStudent | school-management-system.py:68-75 | always appends one Students row with a fresh id, the given name and today's date (duplicate names are accepted) |
| SchoolManagement.Database.UpdateStudent | school-management-system.py:101-115 | a non-blank name renames the row and then crashes with UnboundLocalError on `old_name`; a blank name crashes on a missing id and otherwise changes nothing |
| SchoolManagement.Database.DeleteStudent | school-management-system.py:117-136 | a missing id or a declined answer changes nothing; a confirmed delete removes exactly the student's Grades and Attendance rows and keeps the Students row |
| SchoolManagement.Database.AddGrade | school-management-system.py:140-155 | an unknown id inserts nothing; otherwise exactly one Grades row (fresh id, student, subject, grade, today) is appended |
| SchoolManagement.Database.AddAttendance | school-management-system.py:179-190 | an unknown id inserts nothing; otherwise one row whose `present` is true exactly when the lower-cased answer is "yes" |
| SchoolManagement.GradesAfterDelete | school-management-system.py:133-135 | after the delete `view_student_grades` finds nothing for the student and the same rows as before for every other student |
| SchoolManagement.AttendanceAfterDelete | school-management-system.py:133-135 | the same for `view_student_attendance` |
| SchoolManagement.GradesAfterAdd | school-management-system.py:167-169 | a grade appended for a student appears last in that student's grades and in no other student's |
| SchoolManagement.AttendanceAfterAdd | school-management-system.py:203-205 | the same for attendance |
| SchoolManagement.TableRows | school-management-system.py:224-226 | `SELECT * FROM` the chosen table gives one line per row of that table, each as wide as the table's header |
| SchoolManagement.Header | school-management-system.py:239 | the header row holds one text value per column name of the table |
| SchoolManagement.ExportFileName | school-management-system.py:232-234 | the file name is the table name, `_`, a 10-character date that parses back to today, and `.csv` |
| SchoolManagement.ExportToCsv | school-management-system.py:215-241 | refused exactly when the lower-cased name is not students/grades/attendance; no file exactly when the table is empty; otherwise the named file holds the header and then every table row, so one line more than the table has rows |
| SchoolManagement.ReadStudentInverts | school-management-system.py:236-241 | a written Students row reads back as itself |
| SchoolManagement.ReadGradeInverts | school-management-system.py:236-241 | a written Grades row reads back as itself |
| SchoolManagement.ReadAttendanceInverts | school-management-system.py:236-241 | a written Attendance row reads back as itself, `present` as 1 or 0 |
| SchoolManagement.ExportRoundTrip | school-management-system.py:236-241 | the exported file starts with the column names and its remaining lines read back as exactly the table, in order |
| Common.First | school-management-system2.py:115-116 | the row found is in the table and satisfies the WHERE condition, and none is found exactly when no row does |
| Common.FirstIsEarliest | school-management-system2.py:115-116 | `fetchone()` returns the earliest row in table order that satisfies the condition |
| SchoolManagement2.FindClass | school-management-system2.py:115-116 | finds a class with that exact name, and reports none exactly when no class has it |
| SchoolManagement2.ClassById | school-management-system2.py:132 | the join on `class_id = c.id` finds a class with that id, and none exactly when no class has it |
| SchoolManagement2.PickClass | school-management-system2.py:412-416 | a choice is accepted exactly when it lies in 1..number of classes, and it picks the class listed at that position |
| SchoolManagement2.AssignedLevel | school-management-system2.py:243-248 | a level is found only through an enrolment of the student in an existing class of that level; none means no enrolment of the student joins a class |
| SchoolManagement2.GradeCheck | school-management-system2.py:243-253 | `add_grade` is refused as not assigned exactly when no enrolment of the student joins a class; it passes only through a joined class whose level is in Grades_Scale; the grade value plays no part |
| SchoolManagement2.AssignedLevelSingle | school-management-system2.py:243-244 | with one enrolment, to an existing class, the level found is that class's level |
| SchoolManagement2.GradeCheckSingleEnrolment | school-management-system2.py:243-253 | with one enrolment, to an existing class, the grade is accepted exactly when that class's level is in Grades_Scale |
| SchoolManagement2.RowsFor | school-management-system2.py:132 | the LEFT JOIN gives a student one row per enrolment, in Student_Class order, whose class is the name of the enrolment's class or NULL when no class has that id; a student without enrolments gets the single row (id, name, NULL) |
| SchoolManagement2.JoinRows | school-management-system2.py:132 | the whole join has at least one row per student and shows every student under their id and name |
| SchoolManagement2.JoinRowsNameStudents | school-management-system2.py:132 | every join row carries the id and name of some Students row |
| SchoolManagement2.JoinRowsAppend | school-management-system2.py:132 | the join of a table with appended students is the old join followed by the new students' rows |
| SchoolManagement2.RowsForInJoin | school-management-system2.py:132-139 | every row a student contributes to the LEFT JOIN is a row of the whole join |
| SchoolManagement2.EnrolledStudentJoined | school-management-system2.py:132-139 | a student with an enrolment in an existing class appears in the join as (id, name, that class's name) |
| SchoolManagement2.EveryStudentJoined | school-management-system2.py:132-139 | every student appears in the join under their own id and name; a student without enrolments appears with a NULL class |
| SchoolManagement2.ViewStudents | school-management-system2.py:128-143 | `view_students` prints one line per join row, so at least one per student, and every student is listed under their id and name, with or without a class |
| SchoolManagement2.ListingsNameStudents | school-management-system2.py:128-143 | every line `view_students` prints names an existing student by id and name |
| SchoolManagement2.JoinRowsAfterDelete | school-management-system2.py:225-228 | after the delete the join is the old join without exactly the deleted student's rows |
| SchoolManagement2.ViewAfterAddStudent | school-management-system2.py:132-139 | a new student whose id no enrolment names is listed once, last, as "Unassigned", after the old listing unchanged |
| SchoolManagement2.ViewAfterDelete | school-management-system2.py:225-228 | after the delete `view_students` is the old listing without exactly the deleted student's lines |
| SchoolManagement2.FilterMapListing | school-management-system2.py:139 | turning join rows into listing lines commutes with dropping one student's rows |
| SchoolManagement2.ReassignKeepsOneEnrolment | school-management-system2.py:197-201 | after the reassignment the student has exactly the new enrolment, and every other student's enrolments are unchanged |
| SchoolManagement2.ReassignedStudentListedOnce | school-management-system2.py:197-201 | after the reassignment the student is listed on exactly one line, with the new class |
| SchoolManagement2.ExportRows | school-management-system2.py:456-462 | the exported rows are the join ordered by name then class name (NULL first), the same rows each as often |
| SchoolManagement2.ReadJoinRowInverts | school-management-system2.py:468-470 | a written join row reads back as itself, a NULL class as no class |
| SchoolManagement2.StudentDataCsv | school-management-system2.py:455-470 | student_data.csv starts with the fixed header and has one three-field line per join row, each starting with the integer student id |
| SchoolManagement2.StudentDataRoundTrip | school-management-system2.py:463-470 | the lines after the header read back as the join ordered by name and class |
| SchoolManagement2.StudentAttendance | school-management-system2.py:354 | exactly the student's attendance rows, ordered by date text, the same rows each as often |
| SchoolManagement2.FindStudent | school-management-system2.py:439 | the join on `s.id = sc.student_id` finds a student with that id, and none exactly when none exists |
| SchoolManagement2.ClassMembers | school-management-system2.py:439 | one line per enrolment in the class whose student exists; every line is the id and name of an existing student who has an enrolment in that class |
| SchoolManagement2.ClassMembersComplete | school-management-system2.py:439 | every enrolment in the class whose student exists puts that student on the roster |
| SchoolManagement2.ViewStudentsInClass | school-management-system2.py:422-448 | no classes, then a choice outside 1..number of classes, are reported; otherwise the roster of the picked class |
| SchoolManagement2.AssignedStudentListed | school-management-system2.py:417 | after assigning an existing student to the picked class, that class's roster lists the student last |
| SchoolManagement2.LiveAfterRename | school-management-system2.py:173 | renaming keeps every enrolment pointing at an existing student |
| SchoolManagement2.LiveAfterReassign | school-management-system2.py:198-201 | replacing an existing student's enrolments by one keeps every enrolment pointing at an existing student |
| SchoolManagement2.LiveAfterDelete | school-management-system2.py:227-228 | deleting the student with their enrolments keeps every remaining enrolment pointing at an existing student |
| SchoolManagement2.RenameKeepsTables | school-management-system2.py:172-173 | the rename keeps every table's keys valid and every enrolment live |
| SchoolManagement2.ReassignKeepsTables | school-management-system2.py:197-201 | replacing an existing student's enrolments by one new row keeps every table's keys valid and every enrolment live |
| SchoolManagement2.DeleteKeepsTables | school-management-system2.py:225-229 | the four DELETE statements keep every table's keys valid and every enrolment live |
| SchoolManagement2.DeleteCascade | school-management-system2.py:225-229 | after the delete no Attendance, Grades, Student_Class or Students row refers to the id, and every other student's rows in each table are unchanged |
| SchoolManagement2.SeedScaleValid | school-management-system2.py:22-25 | distinct seeded levels keyed 1, 2, ... and otherwise empty tables satisfy the table invariant, with no enrolment dangling |
| SchoolManagement2.Database.constructor | school-management-system2.py:10-67 | all tables start empty except Grades_Scale, which holds the given distinct levels keyed 1, 2, ...; every counter is 1 except Grades_Scale's, which is one past the last level |
| SchoolManagement2.Database.AddStudent | school-management-system2.py:103-125 | the Students row is always appended; a blank class ends there, an unknown class is reported, and a known class crashes on the unbound `student_id` with no enrolment made |
| SchoolManagement2.Database.UpdateStudent | school-management-system2.py:165-203 | a non-blank name renames and crashes with UnboundLocalError on `old_name`; a blank name on a missing id crashes; "yes" with a known class replaces the student's enrolments by one to that class; every other path changes nothing |
| SchoolManagement2.Database.DeleteStudent | school-management-system2.py:206-231 | a missing id or a declined answer changes nothing; a confirmed delete removes the student's Attendance, Grades, Student_Class and Students rows and nothing else |
| SchoolManagement2.Database.AddGrade | school-management-system2.py:234-257 | one Grades row is appended exactly when the grade check passes; there is no check that the student exists |
| SchoolManagement2.Database.AddAttendance | school-management-system2.py:312-322 | a blank date crashes with nothing inserted; otherwise one row with the typed date, present exactly when the lower-cased answer is "present" |
| SchoolManagement2.Database.AddClass | school-management-system2.py:367-378 | a level outside 1..6 is refused; an existing name crashes on the UNIQUE constraint; otherwise exactly one Classes row is appended |
| SchoolManagement2.Database.AssignStudentToClass | school-management-system2.py:398-419 | no classes, or a choice outside 1..number of classes, inserts nothing; otherwise one enrolment to the picked class is appended and none removed |
| SchoolManagement2.Database.AssignStudentToClassChecked | school-management-system2.py:402-403 | the same with the student-existence check, which keeps every enrolment live |
| SchoolManagement2.NewStudentUnassigned | school-management-system2.py:110-119 | while every enrolment is live, a newly added student is listed as "Unassigned" |
| SchoolManagement2.DanglingEnrolmentAttachesToNewStudent | school-management-system2.py:403 | an enrolment made for a missing id is not live, and shows up as the class of the student who later receives that id |
| SchoolManagement2.NewSchoolWithRoom | school-management-system2.py:367-378 | a new database after `add_class` of "Room1" at level 3 holds that one class under id 1, no students or enrolments, and the next student and enrolment keys are 1 |
| SchoolManagement2.AssignMissingStudent | school-management-system2.py:402-417 | assigning the missing student 1 to the first class is accepted and leaves an enrolment whose student does not exist |
| SchoolManagement2.AddStudentAndView | school-management-system2.py:103-112 | the student added next receives id 1, and `view_students` lists them in Room1 |
| SchoolManagement2.DanglingEnrolmentScenario | school-management-system2.py:402-417 | from a new database: add the class, assign missing id 1, add "Ana"; the assignment is accepted and the listing is Ana in Room1 |

Behaviour of the two programs worth noting:

- Neither variant makes student names unique (`name TEXT NOT NULL` in both).
- In the six-table variant, `add_grade`, `add_attendance` and
  `assign_student_to_class` do not check that the student exists. Each has
  only a comment where the check would go.
- A class's level is checked against 1..6 only, not against Grades_Scale.
- No menu action writes Grades_Scale. On a database file the program
  creates itself, the scale is empty, so `add_grade` never inserts a grade.
- `update_student` with an unknown id is not reported. With a blank name it
  crashes. With a non-blank name it changes nothing and then crashes on
  `old_name` (UnboundLocalError).
- In the three-table variant, `delete_student` keeps the Students row.
- In the six-table variant, `add_student` with an existing class crashes
  before any enrolment is made. `add_attendance` with a blank date crashes
  instead of using today's date.
- Nothing limits a student to one class.

## Left out

- The menu loop, prompts, the parsing of integers with its re-prompts and
  `ValueError` messages, and all printed text. Parsed integers arrive as
  `int` parameters.
- A crash ends the Python program. The model returns `Crashed` with the
  committed state and does not model the process ending.
- `search_students` in both variants is left out. It splices the term into
  a `LIKE` pattern, so quotes and wildcards in the input decide the result.
- The six-table variant's `view_grades` and `view_student_grades` are left
  out. Their SQL names a column `c.student_id` and an alias `su` that do not
  exist, so they always fail in the database.
- The plain listings `view_students`, `view_grades` and `view_attendances`
  of the three-table variant, and `view_classes` and `view_attendances` of
  the six-table variant, are not modelled. Each prints a table or a simple
  join unchanged.
- CSV text encoding (quoting, separators, line ends) is not modelled. The
  export is modelled as the list of value rows handed to the CSV writer.
- `SchoolManagement2.StudentDataRoundTrip`: reads the rows back as values. In
  the file a NULL class becomes an empty field, and it is not distinguished
  from a class with an empty name.
- The three-table variant's `except sqlite3.Error` branch of the export is
  not modelled. The model has no storage failures.
- `Common.Lower` covers ASCII letters only. For comparisons with "yes",
  "present" and the table names this agrees with Python's `str.lower`,
  because no non-ASCII character lower-cases to one of those letters.
- `Dates.FormatDate` covers years 1000 to 9999 only. The padding of other
  years by `strftime` depends on the platform.
- SQLite's `CURRENT_DATE` (a UTC date) and `date.today()` (a local date)
  both become the one `today` parameter.
- Grades_Scale has no action that inserts rows. Its rows are given to the
  constructor.
- Queries without `ORDER BY` have no row order fixed by SQL. The model uses
  table-scan order: Students order for the `view_students` join, and
  Student_Class order for the class roster and for the first joined level in
  `add_grade`.
- `SchoolManagement2.GradeCheck`: its contract states success only as "some
  joined class has a level in the scale". The exact rule, the first joined
  row's level, is the function's definition. It is proved exact for a single
  enrolment in `SchoolManagement2.GradeCheckSingleEnrolment`.
- `SqlValues.SortBy`: rows with equal keys get one particular order, which SQL
  leaves open. Only non-decreasing keys and equality as a multiset are
  stated.
- `SchoolManagement2.ClassMembers`: the order of the lines is not stated.
  The contract gives their number and says each line is an existing student
  enrolled in the class; `SchoolManagement2.ClassMembersComplete` states that
  every enrolment in the class whose student exists gives a line.
- The `REFERENCES` and `ON DELETE CASCADE` clauses are not enforced without
  `PRAGMA foreign_keys`, so they are not invariants of the model.
- Integers are unbounded. SQLite's 64-bit INTEGER limits are not modelled.

## Findings

| source | as written | input that shows it | evidently intended | confidence | as-written member | corrected member |
|---|---|---|---|---|---|---|
| school-management-system2.py:402-417 | `assign_student_to_class` inserts a Student_Class row for any typed id. The existence check is only a comment. | New database; add class "Room1" at level 3, assign id 1 with choice 1, then add student "Ana" with no class, who receives id 1. `view_students` lists Ana in Room1 although she was never assigned. | Refuse an id that names no student, so that every enrolment refers to an existing student. | high, not executed | SchoolManagement2.DanglingEnrolmentScenario | SchoolManagement2.Database.AssignStudentToClassChecked |

`add_grade` (line 239) and `add_attendance` (line 317) have the same
placeholder comment. `add_attendance` inserts an Attendance row for any
typed id. `add_grade` inserts a Grades row for an unknown id only when some
Student_Class row with that id joins a class whose level is in
Grades_Scale. While every enrolment names a student, such a row exists only
after `assign_student_to_class` has stored a dangling enrolment. Rows
stored for an unknown id attach to a student added later who receives that
id.
