/** The record service of backend/server.js, over an in-memory model of its
    SQLite database: the `students` and `grades` tables as maps from id to
    row, and one AUTOINCREMENT counter per table.

    Each request handler is one method that runs as a single atomic store
    operation. The statement's failure, when the database reports one, is the
    parameter `fault`: `Some(message)` stands for the `err` the sqlite3 callback
    receives, `None` for success.

    Whether the declared `FOREIGN KEY ... ON DELETE CASCADE` takes effect is the
    store's `foreignKeys` flag. SQLite enforces foreign keys only after
    `PRAGMA foreign_keys = ON`, which the service never issues, so the deployed
    service is the store built with `foreignKeys == false`: deleting a student
    leaves its grades behind, and a grade may name a student that does not
    exist. With the flag set, the declared intent holds: every grade names an
    existing student, deleting a student deletes its grades, and inserting a
    grade for a missing student fails. */
module Server {
  import opened Records
  import Csv

  const DatabaseErrorMessage := "Database error"
  const StudentUpdatedMessage := "Student updated"
  const StudentDeletedMessage := "Student deleted"
  const FetchGradesFailedMessage := "Failed to fetch grades"
  const AddGradeFailedMessage := "Failed to add grade"
  const UpdateGradeFailedMessage := "Failed to update grade"
  const GradeUpdatedMessage := "Grade updated successfully"
  const GradeDeletedMessage := "Grade deleted successfully"
  const GradeNotFoundMessage := "Grade not found"
  const ExportFailedMessage := "Failed to export grades"
  const NoGradesMessage := "No grades found"

  // ---------------------------------------------------------------------------
  // What the two SELECT statements return
  // ---------------------------------------------------------------------------

  function StudentRowOf(students: map<int, Student>, id: int): StudentRow
    requires id in students
  {
    StudentRow(id, students[id].name, students[id].email)
  }

  /** `rows` is the whole `students` table: each student once, ascending by id,
      and nothing else. */
  predicate ListsStudents(rows: seq<StudentRow>, students: map<int, Student>) {
    && (forall k :: 0 <= k < |rows| ==> rows[k].id in students && rows[k] == StudentRowOf(students, rows[k].id))
    && (forall k, l :: 0 <= k < l < |rows| ==> rows[k].id < rows[l].id)
    && (forall id :: id in students ==> StudentRowOf(students, id) in rows)
  }

  /** `SELECT * FROM students` over the ids in [1, n), in rowid order. */
  function ScanStudents(students: map<int, Student>, n: int): (rows: seq<StudentRow>)
    ensures forall k :: 0 <= k < |rows| ==>
              1 <= rows[k].id < n && rows[k].id in students && rows[k] == StudentRowOf(students, rows[k].id)
    ensures forall k, l :: 0 <= k < l < |rows| ==> rows[k].id < rows[l].id
    ensures forall id :: 1 <= id < n && id in students ==> StudentRowOf(students, id) in rows
    decreases n
  {
    if n <= 1 then []
    else
      var prev := ScanStudents(students, n - 1);
      if n - 1 in students then prev + [StudentRowOf(students, n - 1)] else prev
  }

  /** Grade `id` survives `JOIN students s ON g.student_id = s.id WHERE g.student_id = sid`. */
  predicate Joins(students: map<int, Student>, grades: map<int, Grade>, sid: int, id: int) {
    id in grades && grades[id].studentId == sid && sid in students
  }

  /** The joined row `g.*, s.name as student_name` of grade `id`. */
  function JoinedRow(students: map<int, Student>, grades: map<int, Grade>, id: int): GradeRow
    requires id in grades && grades[id].studentId in students
  {
    var g := grades[id];
    GradeRow(id, g.studentId, g.subject, g.activity, g.quiz, g.exam, students[g.studentId].name)
  }

  /** `rows` is the join for student `sid`: each of its grades once, tagged
      with its name, ascending by id, and nothing else. */
  predicate ListsGradesOf(rows: seq<GradeRow>, students: map<int, Student>, grades: map<int, Grade>, sid: int) {
    && (forall k :: 0 <= k < |rows| ==>
          Joins(students, grades, sid, rows[k].id) && rows[k] == JoinedRow(students, grades, rows[k].id))
    && (forall k, l :: 0 <= k < l < |rows| ==> rows[k].id < rows[l].id)
    && (forall id :: id in grades && Joins(students, grades, sid, id) ==> JoinedRow(students, grades, id) in rows)
  }

  /** The join for student `sid` over the grade ids in [1, n), in rowid order. */
  function ScanJoin(students: map<int, Student>, grades: map<int, Grade>, sid: int, n: int): (rows: seq<GradeRow>)
    ensures forall k :: 0 <= k < |rows| ==>
              1 <= rows[k].id < n && Joins(students, grades, sid, rows[k].id) &&
              rows[k] == JoinedRow(students, grades, rows[k].id)
    ensures forall k, l :: 0 <= k < l < |rows| ==> rows[k].id < rows[l].id
    ensures forall id :: 1 <= id < n && Joins(students, grades, sid, id) ==> JoinedRow(students, grades, id) in rows
    decreases n
  {
    if n <= 1 then []
    else
      var prev := ScanJoin(students, grades, sid, n - 1);
      if Joins(students, grades, sid, n - 1) then prev + [JoinedRow(students, grades, n - 1)] else prev
  }

  /** A student that does not exist has an empty grade listing, whatever rows
      of `grades` still name it. */
  lemma {:induction false} ScanJoinOfMissing(students: map<int, Student>, grades: map<int, Grade>, sid: int, n: int)
    requires sid !in students
    ensures ScanJoin(students, grades, sid, n) == []
    decreases n
  {
    if n > 1 {
      ScanJoinOfMissing(students, grades, sid, n - 1);
    }
  }

  /** The grades that survive deleting student `sid` when the cascade is active. */
  function GradesNotOf(grades: map<int, Grade>, sid: int): (r: map<int, Grade>)
    ensures forall id :: id in r <==> id in grades && grades[id].studentId != sid
    ensures forall id :: id in r ==> r[id] == grades[id]
  {
    map id | id in grades && grades[id].studentId != sid :: grades[id]
  }

  // ---------------------------------------------------------------------------
  // The database and its request handlers
  // ---------------------------------------------------------------------------

  class RecordStore {
    /** The `students` table, keyed by id. */
    var students: map<int, Student>
    /** The `grades` table, keyed by id. */
    var grades: map<int, Grade>
    /** One more than the largest student id ever assigned (AUTOINCREMENT). */
    var nextStudentId: int
    /** One more than the largest grade id ever assigned (AUTOINCREMENT). */
    var nextGradeId: int
    /** Whether SQLite enforces the declared foreign key and its cascade. */
    const foreignKeys: bool

    /** Ids are positive and below their counter, so a new id is never reused;
        every stored score is in [0, 100]; and with foreign keys enforced every
        grade names an existing student. */
    ghost predicate Valid()
      reads this
    {
      && 1 <= nextStudentId && 1 <= nextGradeId
      && (forall id :: id in students ==> 1 <= id < nextStudentId)
      && (forall id :: id in grades ==>
            1 <= id < nextGradeId && ScoresInRange(grades[id].activity, grades[id].quiz, grades[id].exam))
      && (foreignKeys ==> forall id :: id in grades ==> grades[id].studentId in students)
    }

    /** A freshly created database after start-up: both tables created, the
        empty `students` table seeded with one test student. */
    constructor (foreignKeys: bool)
      ensures Valid() && this.foreignKeys == foreignKeys
      ensures students == map[1 := Student("Test Student", "test@example.com")] && nextStudentId == 2
      ensures grades == map[] && nextGradeId == 1
    {
      this.foreignKeys := foreignKeys;
      students := map[1 := Student("Test Student", "test@example.com")];
      nextStudentId := 2;
      grades := map[];
      nextGradeId := 1;
    }

    /** `GET /api/students`: every student, in id order. */
    method ListStudents(fault: Option<string>) returns (r: Result<seq<StudentRow>>)
      requires Valid()
      ensures fault.Some? ==> r == Err(ServerError(DatabaseErrorMessage))
      ensures fault.None? ==> r.Ok? && ListsStudents(r.value, students)
    {
      if fault.Some? {
        return Err(ServerError(DatabaseErrorMessage));
      }
      r := Ok(ScanStudents(students, nextStudentId));
    }

    /** `POST /api/students`: inserts under a fresh id and echoes the row.
        `validateStudent` is not attached to this route, so an empty name or an
        e-mail without '@' is stored like any other. */
    method CreateStudent(name: string, email: string, fault: Option<string>) returns (r: Result<StudentRow>)
      requires Valid()
      modifies this
      ensures Valid()
      ensures fault.Some? ==> r == Err(ServerError(fault.value)) && unchanged(this)
      ensures fault.None? ==>
                && r == Ok(StudentRow(old(nextStudentId), name, email))
                && (forall id :: id in old(students) ==> id < r.value.id)
                && students == old(students)[r.value.id := Student(name, email)]
                && nextStudentId == old(nextStudentId) + 1
      ensures grades == old(grades) && nextGradeId == old(nextGradeId)
    {
      if fault.Some? {
        return Err(ServerError(fault.value));
      }
      var id := nextStudentId;
      students := students[id := Student(name, email)];
      nextStudentId := nextStudentId + 1;
      r := Ok(StudentRow(id, name, email));
    }

    /** `PUT /api/students/:id`: replaces name and e-mail of the matching row.
        There is no existence check: an unknown id changes nothing and still
        succeeds. */
    method UpdateStudent(id: int, name: string, email: string, fault: Option<string>) returns (r: Result<string>)
      requires Valid()
      modifies this
      ensures Valid()
      ensures fault.Some? ==> r == Err(ServerError(fault.value)) && unchanged(this)
      ensures fault.None? ==>
                && r == Ok(StudentUpdatedMessage)
                && students == if id in old(students) then old(students)[id := Student(name, email)] else old(students)
      ensures grades == old(grades) && nextStudentId == old(nextStudentId) && nextGradeId == old(nextGradeId)
    {
      if fault.Some? {
        return Err(ServerError(fault.value));
      }
      if id in students {
        students := students[id := Student(name, email)];
      }
      r := Ok(StudentUpdatedMessage);
    }

    /** `DELETE /api/students/:id`: removes the matching row, and its grades
        only when the cascade is active. There is no existence check: an
        unknown id changes nothing and still succeeds. Either way the student's
        grade listing is empty afterwards, since the join needs the student. */
    method DeleteStudent(id: int, fault: Option<string>) returns (r: Result<string>)
      requires Valid()
      modifies this
      ensures Valid()
      ensures fault.Some? ==> r == Err(ServerError(fault.value)) && unchanged(this)
      ensures fault.None? ==>
                && r == Ok(StudentDeletedMessage)
                && students == old(students) - {id}
                && grades == (if foreignKeys then GradesNotOf(old(grades), id) else old(grades))
                && ScanJoin(students, grades, id, nextGradeId) == []
      ensures nextStudentId == old(nextStudentId) && nextGradeId == old(nextGradeId)
    {
      if fault.Some? {
        return Err(ServerError(fault.value));
      }
      students := students - {id};
      if foreignKeys {
        grades := GradesNotOf(grades, id);
      }
      ScanJoinOfMissing(students, grades, id, nextGradeId);
      r := Ok(StudentDeletedMessage);
    }

    /** `GET /api/grades/:studentId`: the student's grades tagged with its name;
        empty, not an error, when it has none or does not exist. */
    method ListGrades(studentId: int, fault: Option<string>) returns (r: Result<seq<GradeRow>>)
      requires Valid()
      ensures fault.Some? ==> r == Err(ServerError(FetchGradesFailedMessage))
      ensures fault.None? ==>
                r == Ok(ScanJoin(students, grades, studentId, nextGradeId)) &&
                ListsGradesOf(r.value, students, grades, studentId)
    {
      if fault.Some? {
        return Err(ServerError(FetchGradesFailedMessage));
      }
      r := Ok(ScanJoin(students, grades, studentId, nextGradeId));
    }

    /** `POST /api/grades`: refuses any score outside [0, 100] before touching
        the store; otherwise inserts one row under a fresh id and echoes the
        submitted fields. The student id is not checked by the handler; with
        foreign keys enforced the insert itself fails for a missing student. */
    method CreateGrade(studentId: int, subject: string, activity: int, quiz: int, exam: int,
                       fault: Option<string>)
      returns (r: Result<CreatedGrade>)
      requires Valid()
      modifies this
      ensures Valid()
      ensures CheckScores(activity, quiz, exam).Some? ==>
                r == Err(BadRequest(ScoreRangeMessage)) && unchanged(this)
      ensures CheckScores(activity, quiz, exam).None? && (fault.Some? || (foreignKeys && studentId !in students)) ==>
                r == Err(ServerError(AddGradeFailedMessage)) && unchanged(this)
      ensures r.Ok? <==>
                CheckScores(activity, quiz, exam).None? && fault.None? && (foreignKeys ==> studentId in old(students))
      ensures r.Ok? ==>
                && r.value == CreatedGrade(old(nextGradeId), Grade(studentId, subject, activity, quiz, exam))
                && (forall id :: id in old(grades) ==> id < r.value.id)
                && grades == old(grades)[r.value.id := r.value.grade]
                && nextGradeId == old(nextGradeId) + 1
      ensures students == old(students) && nextStudentId == old(nextStudentId)
    {
      var invalid := CheckScores(activity, quiz, exam);
      if invalid.Some? {
        return Err(invalid.value);
      }
      if fault.Some? || (foreignKeys && studentId !in students) {
        return Err(ServerError(AddGradeFailedMessage));
      }
      var id := nextGradeId;
      var g := Grade(studentId, subject, activity, quiz, exam);
      grades := grades[id := g];
      nextGradeId := nextGradeId + 1;
      r := Ok(CreatedGrade(id, g));
    }

    /** `PUT /api/grades/:id`: the presence guard (which refuses a score of 0),
        then the range guard; then overwrites subject and scores of the matching
        row only, keeping its student. An unknown id changes nothing and still
        succeeds. */
    method UpdateGrade(id: int, subject: string, activity: int, quiz: int, exam: int, fault: Option<string>)
      returns (r: Result<UpdatedGrade>)
      requires Valid()
      modifies this
      ensures Valid()
      ensures CheckGradeUpdate(subject, activity, quiz, exam).Some? ==>
                r == Err(CheckGradeUpdate(subject, activity, quiz, exam).value) && unchanged(this)
      ensures CheckGradeUpdate(subject, activity, quiz, exam).None? && fault.Some? ==>
                r == Err(ServerError(UpdateGradeFailedMessage)) && unchanged(this)
      ensures CheckGradeUpdate(subject, activity, quiz, exam).None? && fault.None? ==>
                && r == Ok(UpdatedGrade(id, subject, activity, quiz, exam, GradeUpdatedMessage))
                && grades == if id in old(grades)
                             then old(grades)[id := old(grades)[id].(subject := subject, activity := activity,
                                                                      quiz := quiz, exam := exam)]
                             else old(grades)
      ensures students == old(students) && nextStudentId == old(nextStudentId) && nextGradeId == old(nextGradeId)
    {
      var invalid := CheckGradeUpdate(subject, activity, quiz, exam);
      if invalid.Some? {
        return Err(invalid.value);
      }
      if fault.Some? {
        return Err(ServerError(UpdateGradeFailedMessage));
      }
      if id in grades {
        grades := grades[id := grades[id].(subject := subject, activity := activity, quiz := quiz, exam := exam)];
      }
      r := Ok(UpdatedGrade(id, subject, activity, quiz, exam, GradeUpdatedMessage));
    }

    /** `DELETE /api/grades/:id`: removes the matching row; when no row matched
        (`this.changes === 0`) answers 404 "Grade not found". A store failure is
        answered with its own message, as 404 if that message happens to read
        "Grade not found" and as 500 otherwise. */
    method DeleteGrade(id: int, fault: Option<string>) returns (r: Result<string>)
      requires Valid()
      modifies this
      ensures Valid()
      ensures fault.Some? ==>
                && r == Err(if fault.value == GradeNotFoundMessage then NotFound(fault.value)
                            else ServerError(fault.value))
                && unchanged(this)
      ensures fault.Some? ==> StatusCode(r.error) == if fault.value == GradeNotFoundMessage then 404 else 500
      ensures fault.None? && id !in old(grades) ==> r == Err(NotFound(GradeNotFoundMessage)) && unchanged(this)
      ensures fault.None? ==> (r.Err? <==> id !in old(grades)) && (r.Err? ==> StatusCode(r.error) == 404)
      ensures fault.None? && id in old(grades) ==> r == Ok(GradeDeletedMessage) && grades == old(grades) - {id}
      ensures students == old(students) && nextStudentId == old(nextStudentId) && nextGradeId == old(nextGradeId)
    {
      if fault.Some? {
        var message := fault.value;
        return Err(if message == GradeNotFoundMessage then NotFound(message) else ServerError(message));
      }
      if id !in grades {
        return Err(NotFound(GradeNotFoundMessage));
      }
      grades := grades - {id};
      r := Ok(GradeDeletedMessage);
    }

    /** `GET /api/export/grades/:studentId`: 404 when the join is empty,
        otherwise the CSV document of the joined rows. */
    method ExportGrades(studentId: int, fault: Option<string>) returns (r: Result<string>)
      requires Valid()
      ensures fault.Some? ==> r == Err(ServerError(ExportFailedMessage))
      ensures fault.None? ==> (r.Ok? <==> exists id :: Joins(students, grades, studentId, id))
      ensures fault.None? && r.Err? ==> r.error == NotFound(NoGradesMessage)
      ensures r.Ok? ==> r.value == Csv.Document(ScanJoin(students, grades, studentId, nextGradeId))
    {
      if fault.Some? {
        return Err(ServerError(ExportFailedMessage));
      }
      var rows := ScanJoin(students, grades, studentId, nextGradeId);
      if |rows| == 0 {
        return Err(NotFound(NoGradesMessage));
      }
      assert Joins(students, grades, studentId, rows[0].id);
      r := Ok(Csv.Document(rows));
    }
  }

  // ---------------------------------------------------------------------------
  // Clients of the handlers
  // ---------------------------------------------------------------------------

  /** A new student's id is usable at once to grade it, and its export is the
      header and one line whose average is 80.00. */
  method ScenarioGradeAndExport() {
    var store := new RecordStore(false);
    var s := store.CreateStudent("Jane", "jane@x.com", None);
    assert s.value.id == 2;
    var g := store.CreateGrade(s.value.id, "Math", 80, 90, 70, None);
    assert g.value.id == 1;
    var listed := store.ListGrades(s.value.id, None);
    var row := GradeRow(1, 2, "Math", 80, 90, 70, "Jane");
    assert listed.value == [row];
    assert Joins(store.students, store.grades, 2, 1);
    var csv := store.ExportGrades(s.value.id, None);
    assert csv.Ok? && csv.value == Csv.Document(listed.value);
    AverageTextExamples();
    assert Csv.Fields(row)[5] == "80.00";
  }

  /** Without enforced foreign keys, deleting a student leaves its grade
      stored; the grade no longer shows in the listing or the export. With
      them enforced, the grade goes with the student. */
  method ScenarioDeleteGradedStudent(foreignKeys: bool) {
    var store := new RecordStore(foreignKeys);
    var s := store.CreateStudent("Jane", "jane@x.com", None);
    var g := store.CreateGrade(s.value.id, "Math", 80, 90, 70, None);
    var d := store.DeleteStudent(s.value.id, None);
    assert g.value.id in store.grades <==> !foreignKeys;
    var listed := store.ListGrades(s.value.id, None);
    assert listed == Ok([]);
    var csv := store.ExportGrades(s.value.id, None);
    assert csv == Err(NotFound(NoGradesMessage));
  }
}
