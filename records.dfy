/** The rows of the two tables, the shapes the handlers answer with, the error
    kinds they report, and the validation rules of backend/server.js.

    Request fields are modelled as already-typed values: scores and ids are
    integers and names, e-mails and subjects are strings. JavaScript's coercion
    of untyped request bodies (an `undefined` score compares false with 0 and so
    slips past the range guard; a missing name is stored as NULL) is not part
    of this model. */
module Records {
  import Text

  datatype Option<T> = None | Some(value: T)

  /** A row of `students`, without its id (the id is the key it is stored under). */
  datatype Student = Student(name: string, email: string)

  /** A row of `grades`, without its id. */
  datatype Grade = Grade(studentId: int, subject: string, activity: int, quiz: int, exam: int)

  /** A student as `GET /api/students` and `POST /api/students` answer it. */
  datatype StudentRow = StudentRow(id: int, name: string, email: string)

  /** A grade joined with its student's name (`g.*, s.name as student_name`). */
  datatype GradeRow = GradeRow(id: int, studentId: int, subject: string,
                               activity: int, quiz: int, exam: int, studentName: string)

  /** The answer of `POST /api/grades`: the assigned id and the submitted fields. */
  datatype CreatedGrade = CreatedGrade(id: int, grade: Grade)

  /** The answer of `PUT /api/grades/:id`. */
  datatype UpdatedGrade = UpdatedGrade(id: int, subject: string, activity: int, quiz: int, exam: int,
                                       message: string)

  /** The three error answers: 400 validation, 404 not found, 500 store failure. */
  datatype Error = BadRequest(message: string) | NotFound(message: string) | ServerError(message: string)

  datatype Result<T> = Ok(value: T) | Err(error: Error)

  function StatusCode(e: Error): (code: int)
    ensures 400 <= code < 600
    ensures code == 400 <==> e.BadRequest?
    ensures code == 404 <==> e.NotFound?
    ensures code == 500 <==> e.ServerError?
  {
    match e
    case BadRequest(_) => 400
    case NotFound(_) => 404
    case ServerError(_) => 500
  }

  const ScoreRangeMessage := "Scores must be between 0 and 100"
  const MissingFieldsMessage := "All fields are required"
  const MissingStudentFieldsMessage := "Name and email are required"
  const EmailFormatMessage := "Invalid email format"

  predicate InRange(score: int) {
    0 <= score <= 100
  }

  /** All three scores of a grade are in [0, 100]: what every stored grade
      satisfies, since both writers check it first. */
  predicate ScoresInRange(activity: int, quiz: int, exam: int) {
    InRange(activity) && InRange(quiz) && InRange(exam)
  }

  /** The range guard of create-grade and update-grade. */
  function CheckScores(activity: int, quiz: int, exam: int): (r: Option<Error>)
    ensures r.None? <==> ScoresInRange(activity, quiz, exam)
    ensures r.Some? ==> r.value == BadRequest(ScoreRangeMessage)
  {
    if activity < 0 || activity > 100 || quiz < 0 || quiz > 100 || exam < 0 || exam > 100 then
      Some(BadRequest(ScoreRangeMessage))
    else
      None
  }

  /** The presence guard of update-grade, then the range guard. Presence is
      JavaScript truthiness: an empty subject or a score of 0 counts as missing,
      so a score of 0 is refused although it is in range. */
  function CheckGradeUpdate(subject: string, activity: int, quiz: int, exam: int): (r: Option<Error>)
    ensures r.None? <==> subject != "" && 1 <= activity <= 100 && 1 <= quiz <= 100 && 1 <= exam <= 100
    ensures r.Some? ==> r.value.BadRequest?
    ensures subject == "" || activity == 0 || quiz == 0 || exam == 0 ==>
              r == Some(BadRequest(MissingFieldsMessage))
    ensures subject != "" && activity != 0 && quiz != 0 && exam != 0 ==> r == CheckScores(activity, quiz, exam)
  {
    if subject == "" || activity == 0 || quiz == 0 || exam == 0 then
      Some(BadRequest(MissingFieldsMessage))
    else
      CheckScores(activity, quiz, exam)
  }

  /** `validateStudent`: name and e-mail present (non-empty) and the e-mail contains '@'. */
  function ValidateStudent(name: string, email: string): (r: Option<Error>)
    ensures r.None? <==> name != "" && '@' in email
    ensures name == "" || email == "" ==> r == Some(BadRequest(MissingStudentFieldsMessage))
    ensures name != "" && email != "" && '@' !in email ==> r == Some(BadRequest(EmailFormatMessage))
  {
    Text.IncludesChar(email, '@');
    if name == "" || email == "" then Some(BadRequest(MissingStudentFieldsMessage))
    else if !Text.Includes(email, "@") then Some(BadRequest(EmailFormatMessage))
    else None
  }

  /** `((a + q + e) / 3).toFixed(2)` counted in hundredths: the integer nearest
      to 100 * sum / 3, with the sign of the sum (toFixed rounds the magnitude).
      A third never lies half-way between two hundredths, so there is no tie. */
  function AverageHundredths(sum: int): (h: int)
    ensures -1 <= 3 * h - 100 * sum <= 1
    ensures sum >= 0 ==> h >= 0
  {
    if sum >= 0 then (100 * sum + 1) / 3 else -((100 * -sum + 1) / 3)
  }

  /** No other count of hundredths is as close to 100 * sum / 3. */
  lemma AverageIsNearest(sum: int, k: int)
    requires k != AverageHundredths(sum)
    ensures var h := AverageHundredths(sum);
            Abs(3 * h - 100 * sum) < Abs(3 * k - 100 * sum)
  {
    var h := AverageHundredths(sum);
    assert 3 * k - 100 * sum == 3 * (k - h) + (3 * h - 100 * sum);
  }

  function Abs(x: int): nat {
    if x < 0 then -x else x
  }

  /** The average text shown per grade row and written in the export. */
  function AverageText(sum: int): (r: string)
    ensures Text.IsFixed2Text(r) && Text.ParseFixed2(r) == AverageHundredths(sum)
    ensures Text.AllNumerals(r)
  {
    Text.Fixed2RoundTrip(AverageHundredths(sum));
    Text.Fixed2(AverageHundredths(sum))
  }

  /** Worked values: an exact average, one rounded down, one rounded up. */
  lemma AverageTextExamples()
    ensures AverageText(80 + 90 + 70) == "80.00"
    ensures AverageText(100) == "33.33"
    ensures AverageText(200) == "66.67"
  {
    assert AverageHundredths(240) == 8000 && AverageHundredths(100) == 3333 && AverageHundredths(200) == 6667;
    assert Text.NatToString(80) == "80" && Text.NatToString(33) == "33" && Text.NatToString(66) == "66";
    assert Text.UnsignedFixed2(8000) == "80.00";
    assert Text.UnsignedFixed2(3333) == "33.33";
    assert Text.UnsignedFixed2(6667) == "66.67";
  }
}
