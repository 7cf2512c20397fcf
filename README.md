# Student records service and its view logic, in Dafny

This project models the core of a small student-management application:

- **The record service** (`backend/server.js`):
  - an Express server over two SQLite tables, `students` and `grades`;
  - handlers that list, create, update and delete students and grades;
  - a handler that exports one student's grades as CSV.
- **The view logic** (`frontend/src/App.js`) that computes something from the loaded lists:
  - the subject filter and the student search;
  - the dashboard's distinct-subject count and mean grade;
  - the average shown on each grade row.

## Files

| file | module | what it holds |
|---|---|---|
| `text.dfy` | `Text` | the string primitives the source uses, with their round trips: ASCII `toLowerCase`, `includes`, `join`/`split` on one character, decimal numbers, and two-decimal `toFixed` |
| `seqs.dfy` | `Seqs` | `Array.prototype.filter` over sequences and the subsequence relation it keeps |
| `records.dfy` | `Records` | the rows, the responses and the three error kinds (400, 404, 500); the score and student validation; the average counted in hundredths |
| `csv.dfy` | `Csv` | the export document: a header, one line per joined row, lines joined by `'\n'` |
| `server.dfy` | `Server` | the class `RecordStore` (both tables as maps, one AUTOINCREMENT counter per table) with one method per request handler |
| `client.dfy` | `Client` | `filteredGrades`, `filteredStudents`, the subject count, `calculateAverage`, and the displayed row average |

### The store and its handlers

- **The store.**
  - Each table is a `map` from id to row, and ids come from a counter that only grows.
  - `RecordStore.Valid()` holds after every handler:
    - every id is positive and below its counter;
    - every stored score is in [0, 100];
    - when foreign keys are enforced, every grade names an existing student.
- **Store failures.** When the database reports a failure, the sqlite3 callback receives an `err`. Here that is the `fault` parameter, which carries the error's message.
- **Listings.** A listing is the specification function `ScanStudents` or `ScanJoin`. It gives the matching rows in id order.
- **The cascade depends on a flag.** The schema declares `ON DELETE CASCADE`, but the service never issues `PRAGMA foreign_keys = ON`. SQLite therefore does not enforce the key or the cascade. The store's `foreignKeys` flag chooses between the two behaviours:
  - `false` is the deployed service: deleting a student leaves its grades stored, though unlisted.
  - `true` is the declared intent: deleting a student deletes its grades, and a grade for a missing student is refused.
- **Example scenarios.** Two methods, `ScenarioGradeAndExport` and `ScenarioDeleteGradedStudent`, call the handlers in sequence.
- **Unattached validation.** `validateStudent` is defined, but it is not attached to `POST /api/students`. `ValidateStudent` models the predicate. `CreateStudent` stores any name and e-mail, because the route does.
- **A score of 0 on update.** The update-grade presence check is JavaScript truthiness, so a score of 0 is refused although it is in range. The model keeps this as written: `CheckGradeUpdate` states it in both directions.

## Model

| member | source | states |
|---|---|---|
| Records.StatusCode | backend/server.js:140 | each error kind has its own status: 400 for validation, 404 for not found, 500 for a store failure |
| Records.CheckScores | backend/server.js:137-141 | the range guard passes exactly when all three scores are in [0, 100]; otherwise the answer is 400 "Scores must be between 0 and 100" |
| Records.CheckGradeUpdate | backend/server.js:220-229 | update input passes exactly when the subject is non-empty and every score is in [1, 100], so a score of 0 is refused; an empty subject or a zero score gives "All fields are required", and otherwise the range guard decides |
| Records.ValidateStudent | backend/server.js:164-173 | passes exactly when the name is non-empty and the e-mail contains '@'; a missing name or e-mail and a malformed e-mail each get their own 400 message |
| Records.AverageHundredths | backend/server.js:201 | the average of three scores in hundredths is within a third of a hundredth of 100 * sum / 3, and is non-negative for a non-negative sum |
| Records.AverageIsNearest | backend/server.js:201 | no other count of hundredths is as close to 100 * sum / 3, so rounding has no tie to break |
| Records.AverageText | backend/server.js:201 | the `toFixed(2)` text of the average is a well-formed two-decimal numeral that parses back to the rounded hundredths |
| Records.AverageTextExamples | backend/server.js:201 | worked values: a sum of 240 shows "80.00", 100 shows "33.33" (rounded down), 200 shows "66.67" (rounded up) |
| Text.Lower | frontend/src/App.js:215 | ASCII `toLowerCase` keeps the length, maps each character and leaves no upper-case letter |
| Text.LowerIdempotent | frontend/src/App.js:215 | lower-casing twice is lower-casing once |
| Text.Includes | frontend/src/App.js:215 | `includes` holds exactly when the pattern occurs at some position of the text |
| Text.IncludesEmpty | frontend/src/App.js:214-216 | every text includes the empty pattern |
| Text.IncludesChar | backend/server.js:169 | a text includes a one-character pattern exactly when the character is in it |
| Text.Split | backend/server.js:210 | splitting always gives at least one field |
| Text.SplitLength | backend/server.js:202 | a split has one field more than there are separators |
| Text.SplitJoin | backend/server.js:199 | splitting a join of separator-free parts gives the parts back |
| Text.Join | backend/server.js:199 | `Array.prototype.join` on one character; its inverse is `Text.Split`, proved in `Text.SplitJoin` and `Text.JoinSplit`, and its separator count is `Text.OccurrencesJoin` |
| Text.JoinSplit | backend/server.js:210 | joining a split gives the text back |
| Text.OccurrencesJoin | backend/server.js:202 | a join of n parts holds n - 1 separators plus those inside the parts |
| Text.OccurrencesJoinOther | backend/server.js:210 | any character other than the separator occurs in a join exactly as often as in the parts |
| Text.JoinAvoids | backend/server.js:210 | a join holds a character other than the separator only if some part does |
| Text.NatToString | backend/server.js:202 | the decimal text of a natural number is non-empty and all digits, with a leading '0' only for 0 |
| Text.ParseNatToString | backend/server.js:202 | reading the decimal text of a natural number gives it back |
| Text.IntToString | backend/server.js:202 | a score as the template literal writes it: non-empty and all numerals; `Text.IntToStringRoundTrip` reads it back |
| Text.IntToStringRoundTrip | backend/server.js:202 | reading the decimal text of an integer, a score in the CSV, gives it back |
| Text.UnsignedFixed2RoundTrip | backend/server.js:201 | the two-decimal text of a count of hundredths parses back to that count |
| Text.Fixed2 | backend/server.js:201 | `toFixed(2)` of a count of hundredths: a leading '-' exactly for a negative count, then a whole part without leading zeros, the point third from the end and two decimals; `Text.Fixed2RoundTrip` parses it back |
| Text.Fixed2RoundTrip | backend/server.js:201 | the signed two-decimal text parses back to the signed count of hundredths |
| Seqs.Filter | frontend/src/App.js:214-222 | `filter` keeps exactly the elements that pass, each as often as in the input, in their order: a subsequence no longer than the input |
| Seqs.FilterKeepsAll | frontend/src/App.js:214-222 | a filter every element passes keeps the whole sequence |
| Seqs.FilterAgrees | frontend/src/App.js:214-216 | two tests that agree on every element filter alike |
| Csv.Header | backend/server.js:199 | the header line splits back into the six column titles in order and holds no newline |
| Csv.Fields | backend/server.js:202 | one value per header column, in column order, the four numeric ones non-empty numerals; `Csv.LineFields` reads them back from the line |
| Csv.Line | backend/server.js:202 | the six values joined by ','; `Csv.LineFields` splits it back into them and `Csv.LineFieldCount` counts the extra fields a comma in a value adds |
| Csv.Lines | backend/server.js:200-203 | one line per joined row, in row order |
| Csv.Document | backend/server.js:210 | header and lines joined by '\n'; when no name or subject holds a newline, `Csv.DocumentLines` reads it back as the header and one line per row, and `Csv.DocumentLineCount` counts the extra lines a newline in a value adds |
| Csv.LineNewlines | backend/server.js:202 | a line holds no newline when the name and the subject hold none |
| Csv.LineNewlineCount | backend/server.js:202 | the newlines of a line are exactly those of its name and its subject |
| Csv.DocumentLines | backend/server.js:210 | when no name or subject holds a newline, the document read back line by line is the header and then one line per row, one line more than there are rows |
| Csv.LineFields | backend/server.js:200-203 | a line whose name and subject hold no comma reads back as the six values in column order; the sixth is the two-decimal average |
| Csv.LineFieldCount | backend/server.js:202 | values are not escaped, so every comma in the name or the subject adds a field |
| Csv.DocumentLineCount | backend/server.js:210 | values are not escaped, so every newline in a name or a subject adds a line: the document reads back as one line more than there are rows plus one per such newline |
| Server.ScanStudents | backend/server.js:58 | `SELECT * FROM students` gives each student below the bound once, ascending by id, and nothing else |
| Server.ScanJoin | backend/server.js:114-119 | the join lists exactly the grades of the student that exist together with that student, each tagged with the student's name, ascending by id |
| Server.ScanJoinOfMissing | backend/server.js:115-118 | a student that does not exist has an empty join, whatever grade rows still name it |
| Server.GradesNotOf | backend/server.js:44 | the cascade keeps exactly the grades of other students, unchanged |
| Server.RecordStore.constructor | backend/server.js:18-45 | a fresh database holds the seeded test student under id 1 and no grades, and satisfies the store invariant |
| Server.RecordStore.ListStudents | backend/server.js:56-67 | 500 "Database error" on a store failure; otherwise exactly the stored students, once each, in id order |
| Server.RecordStore.CreateStudent | backend/server.js:95-107 | 500 with the store's message on a failure, with nothing changed; otherwise one new row under a fresh id larger than every existing id, echoed back, with nothing else changed |
| Server.RecordStore.UpdateStudent | backend/server.js:81-92 | succeeds whether or not the id exists; only that student's row changes, and grades and counters stay |
| Server.RecordStore.DeleteStudent | backend/server.js:70-78 | succeeds whether or not the id exists; removes only that student, and its grades only when the foreign key declared at backend/server.js:44 is enforced; afterwards its grade listing is empty either way |
| Server.RecordStore.ListGrades | backend/server.js:110-129 | 500 "Failed to fetch grades" on a store failure; otherwise exactly the joined rows of that student in id order, empty when it has none |
| Server.RecordStore.CreateGrade | backend/server.js:132-161 | an out-of-range score gives 400 and changes nothing; a store failure, or a missing student under enforced foreign keys, gives 500 and changes nothing; otherwise exactly one row is inserted under a fresh id larger than every existing id and echoed, and it succeeds exactly then |
| Server.RecordStore.UpdateGrade | backend/server.js:215-249 | the update guard's 400 changes nothing; a store failure gives 500; otherwise only the matching row's subject and scores are overwritten, keeping its student, and an unknown id still succeeds |
| Server.RecordStore.DeleteGrade | backend/server.js:252-272 | removes exactly the matching row; it fails exactly when no row matched, with status 404 "Grade not found" and nothing changed; a store failure answers with its own message, with status 404 only if that message reads "Grade not found" and 500 otherwise |
| Server.RecordStore.ExportGrades | backend/server.js:176-212 | 500 on a store failure; 404 "No grades found" exactly when the student has no joined grade; otherwise the CSV document of the joined rows |
| Client.SubjectMatches | frontend/src/App.js:215 | the callback of `filteredGrades`: the lower-cased subject includes the lower-cased filter; `Client.FilteredGrades` keeps exactly the rows it accepts |
| Client.FilteredGrades | frontend/src/App.js:214-216 | keeps exactly the grades whose lower-cased subject contains the lower-cased filter, each as often as loaded, in their order, as a subsequence |
| Client.EmptyFilterKeepsAllGrades | frontend/src/App.js:214-216 | an empty subject filter shows every loaded grade |
| Client.SubjectFilterIgnoresCase | frontend/src/App.js:214-216 | filters that differ only in letter case select the same grades |
| Client.StudentMatches | frontend/src/App.js:220-221 | the callback of `filteredStudents`: the lower-cased name or e-mail includes the lower-cased term; `Client.FilteredStudents` keeps exactly the rows it accepts |
| Client.FilteredStudents | frontend/src/App.js:219-222 | keeps a student exactly when its lower-cased name or e-mail contains the lower-cased term, each as often as loaded, in order, as a subsequence |
| Client.EmptySearchKeepsAllStudents | frontend/src/App.js:219-222 | an empty search term shows every loaded student |
| Client.Subjects | frontend/src/App.js:285 | the set of subjects is exactly the subjects of the loaded grades |
| Client.SubjectsBound | frontend/src/App.js:285 | there are at most as many subjects as grades, and at least one when any grade is loaded |
| Client.SubjectCount | frontend/src/App.js:285 | "Total Subjects" is at most the number of grades, and 0 exactly when there are none |
| Client.DistinctCons | frontend/src/App.js:285 | a list has no repeated subject exactly when its tail has none and its first subject does not occur there |
| Client.SubjectCountExact | frontend/src/App.js:285 | "Total Subjects" equals the number of grades exactly when no subject repeats |
| Client.SumOfAverages | frontend/src/App.js:173-175 | the `reduce` over the row averages, summed from the left; `Client.SumOfAveragesBounds` bounds it by 0 and 100 per grade |
| Client.SumOfAveragesBounds | frontend/src/App.js:173-175 | whenever every row's scores are in range, the summed row averages lie between 0 and 100 per grade |
| Client.CalculateAverage | frontend/src/App.js:171-176 | 0 on an empty list; with in-range scores the mean lies in [0, 100] |
| Client.DisplayedAverage | frontend/src/App.js:452 | the row's `toFixed(2)` average; `Client.DisplayedAverageIsRounded` shows it is the exact mean to the nearest hundredth and `Client.DisplayedAverageIsExported` that it is the export's sixth field |
| Client.DisplayedAverageIsRounded | frontend/src/App.js:452 | the row average shown is the exact mean, rounded to the nearest hundredth, so it is off by at most a third of a hundredth |
| Client.DisplayedAverageIsExported | frontend/src/App.js:452 | when neither the name nor the subject holds a comma, the table shows the same text the export writes (backend/server.js:201) in the sixth field of the row's line |

## Left out

- JavaScript coercion of request bodies is not modelled. Scores and ids are integers, and names, e-mails and subjects are strings. Untyped values (`undefined`, strings, `NaN`, fractions) are not modelled. For example, an `undefined` score slips past the range guard.
- A missing student name or e-mail is not modelled. The store would refuse it through `NOT NULL`.
- Route ids are integers. A non-numeric `:id` is not modelled, nor is its comparison with stored ids.
- Express, CORS, the JSON middleware, response headers, `app.listen` and the health route `/` are left out: they are framework wiring.
- The connection callback, table creation and test-row seeding are asynchronous I/O. Their result is the constructor's initial state: a fresh database with the seeded test student.
- Requests are not interleaved. Each handler runs as one atomic store operation.
- Store failures are not modelled by cause. A failure is the `fault` parameter with its message; the model does not say when SQLite fails.
- Listings are in id order. SQL gives no `ORDER BY`, so this models the rowid scan SQLite performs on these queries.
- With foreign keys off, a grade may name a student id that does not exist yet. A later student that receives that id then inherits the grade. Ids come from AUTOINCREMENT, so this happens only for ids that have not yet been assigned. The model allows it, as the store does.
- Client.CalculateAverage: computed over exact rationals, not IEEE doubles, so its value is exact where the browser rounds. The `toFixed(2)` of the dashboard mean is not modelled.
- Lower-casing is ASCII only: Unicode case mapping is not modelled.
- "Total Students" (`students.length`) is not modelled: it is the length of the loaded list.
- React state, effects, axios requests, loading and error flags, the blob download and `window.confirm` in `frontend/src/App.js` are user interface and network I/O, and are not part of this model.
- Text.Fixed2: renders any integer count of hundredths in plain decimal. JavaScript's `toFixed(2)` agrees only below 1e21, where it switches to exponent notation, and it is exact only below 2^53. Averages of three scores stay far inside both limits.
