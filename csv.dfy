/** The CSV text of `GET /api/export/grades/:studentId`: a header line, then
    one line per joined grade row, lines joined by '\n'. Field values are
    written as they are, without quoting or escaping. */
module Csv {
  import opened Records
  import Text

  const HeaderFields: seq<string> :=
    ["Student", "Subject", "Activity Score", "Quiz Score", "Exam Score", "Average"]

  /** No column title holds a comma or a newline. */
  lemma HeaderFieldsPlain()
    ensures forall k :: 0 <= k < |HeaderFields| ==> ',' !in HeaderFields[k] && '\n' !in HeaderFields[k]
  {
    forall k | 0 <= k < |HeaderFields|
      ensures ',' !in HeaderFields[k] && '\n' !in HeaderFields[k]
    {
      assert forall i :: 0 <= i < |HeaderFields[k]| ==> HeaderFields[k][i] == ' ' || 'A' <= HeaderFields[k][i] <= 'z';
    }
  }

  /** The header line: the six column titles joined by ','. */
  function Header(): (r: string)
    ensures Text.Split(r, ',') == HeaderFields
    ensures '\n' !in r
  {
    HeaderFieldsPlain();
    Text.SplitJoin(HeaderFields, ',');
    Text.JoinAvoids(HeaderFields, ',', '\n');
    Text.Join(HeaderFields, ',')
  }

  /** The six values of one line, in column order. */
  function Fields(g: GradeRow): (r: seq<string>)
    ensures |r| == |HeaderFields|
    ensures forall k :: 2 <= k < |r| ==> |r[k]| >= 1 && Text.AllNumerals(r[k])
  {
    [g.studentName, g.subject, Text.IntToString(g.activity), Text.IntToString(g.quiz),
     Text.IntToString(g.exam), AverageText(g.activity + g.quiz + g.exam)]
  }

  /** One data line: the template literal writes the six values separated by ','. */
  function Line(g: GradeRow): string {
    Text.Join(Fields(g), ',')
  }

  /** `grades.map(...)`: one line per row, in row order. */
  function Lines(rows: seq<GradeRow>): (r: seq<string>)
    ensures |r| == |rows|
    ensures forall k :: 0 <= k < |rows| ==> r[k] == Line(rows[k])
  {
    if |rows| == 0 then [] else [Line(rows[0])] + Lines(rows[1..])
  }

  /** `[csvHeader, ...csvRows].join('\n')`. */
  function Document(rows: seq<GradeRow>): string {
    Text.Join([Header()] + Lines(rows), '\n')
  }

  predicate NoNewlines(g: GradeRow) {
    '\n' !in g.studentName && '\n' !in g.subject
  }

  predicate NoCommas(g: GradeRow) {
    ',' !in g.studentName && ',' !in g.subject
  }

  /** A line holds no newline unless the name or the subject holds one. */
  lemma LineNewlines(g: GradeRow)
    requires NoNewlines(g)
    ensures '\n' !in Line(g)
  {
    var f := Fields(g);
    assert '\n' !in f[2] && '\n' !in f[3] && '\n' !in f[4] && '\n' !in f[5] by {
      assert !Text.IsNumeral('\n');
    }
    Text.JoinAvoids(f, ',', '\n');
  }

  /** Read back line by line, the document is the header and then one line per
      row, so it has one line more than there are rows. */
  lemma DocumentLines(rows: seq<GradeRow>)
    requires forall k :: 0 <= k < |rows| ==> NoNewlines(rows[k])
    ensures Text.Split(Document(rows), '\n') == [Header()] + Lines(rows)
    ensures |Text.Split(Document(rows), '\n')| == |rows| + 1
  {
    var all := [Header()] + Lines(rows);
    forall k | 0 <= k < |all|
      ensures '\n' !in all[k]
    {
      if k > 0 {
        LineNewlines(rows[k - 1]);
      }
    }
    Text.SplitJoin(all, '\n');
  }

  /** Read back field by field, a line whose name and subject hold no comma
      gives the six values in column order; the sixth is the average. */
  lemma LineFields(g: GradeRow)
    requires NoCommas(g)
    ensures Text.Split(Line(g), ',') == Fields(g)
    ensures |Fields(g)| == 6 && Fields(g)[5] == AverageText(g.activity + g.quiz + g.exam)
  {
    var f := Fields(g);
    assert ',' !in f[2] && ',' !in f[3] && ',' !in f[4] && ',' !in f[5] by {
      assert !Text.IsNumeral(',');
    }
    Text.SplitJoin(f, ',');
  }

  /** Values are not escaped: every comma inside the name or the subject adds a
      field, so a line reads back as six fields exactly when neither holds one. */
  lemma LineFieldCount(g: GradeRow)
    ensures |Text.Split(Line(g), ',')| ==
            6 + Text.Occurrences(g.studentName, ',') + Text.Occurrences(g.subject, ',')
  {
    var f := Fields(g);
    assert ',' !in f[2] && ',' !in f[3] && ',' !in f[4] && ',' !in f[5] by {
      assert !Text.IsNumeral(',');
    }
    assert f[1..][1..] == f[2..] && f[2..][1..] == f[3..] && f[3..][1..] == f[4..];
    assert f[4..][1..] == f[5..] && f[5..][1..] == [];
    assert Text.SumOccurrences(f[5..], ',') == 0;
    assert Text.SumOccurrences(f[4..], ',') == 0;
    assert Text.SumOccurrences(f[3..], ',') == 0;
    assert Text.SumOccurrences(f[2..], ',') == 0;
    Text.OccurrencesJoin(f, ',');
    Text.SplitLength(Line(g), ',');
  }

  /** Newlines in the names and subjects of the rows, counted. */
  function NewlinesIn(rows: seq<GradeRow>): nat {
    if |rows| == 0 then 0
    else Text.Occurrences(rows[0].studentName, '\n') + Text.Occurrences(rows[0].subject, '\n') + NewlinesIn(rows[1..])
  }

  /** The newlines of a line are those of its name and its subject. */
  lemma LineNewlineCount(g: GradeRow)
    ensures Text.Occurrences(Line(g), '\n') == Text.Occurrences(g.studentName, '\n') + Text.Occurrences(g.subject, '\n')
  {
    var f := Fields(g);
    assert '\n' !in f[2] && '\n' !in f[3] && '\n' !in f[4] && '\n' !in f[5] by {
      assert !Text.IsNumeral('\n');
    }
    assert f[1..][1..] == f[2..] && f[2..][1..] == f[3..] && f[3..][1..] == f[4..];
    assert f[4..][1..] == f[5..] && f[5..][1..] == [];
    assert Text.SumOccurrences(f[5..], '\n') == 0;
    assert Text.SumOccurrences(f[4..], '\n') == 0;
    assert Text.SumOccurrences(f[3..], '\n') == 0;
    assert Text.SumOccurrences(f[2..], '\n') == 0;
    Text.OccurrencesJoinOther(f, ',', '\n');
  }

  lemma {:induction false} LinesNewlineCount(rows: seq<GradeRow>)
    ensures Text.SumOccurrences(Lines(rows), '\n') == NewlinesIn(rows)
    decreases |rows|
  {
    if |rows| > 0 {
      LinesNewlineCount(rows[1..]);
      LineNewlineCount(rows[0]);
      assert Lines(rows)[1..] == Lines(rows[1..]);
    }
  }

  /** Values are not escaped: every newline inside a name or a subject adds a
      line to the document, so it reads back as one line more than there are
      rows exactly when none holds one. */
  lemma DocumentLineCount(rows: seq<GradeRow>)
    ensures |Text.Split(Document(rows), '\n')| == |rows| + 1 + NewlinesIn(rows)
  {
    var all := [Header()] + Lines(rows);
    assert all[1..] == Lines(rows);
    LinesNewlineCount(rows);
    Text.OccurrencesJoin(all, '\n');
    Text.SplitLength(Document(rows), '\n');
  }
}
