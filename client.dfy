/** The view logic of frontend/src/App.js that computes something from the
    loaded lists: the subject filter over the grades, the name-or-e-mail search
    over the students, the dashboard's distinct-subject count and mean grade,
    and the average shown on each grade row. Lower-casing is ASCII only. */
module Client {
  import opened Records
  import Text
  import Seqs
  import Csv

  // ---------------------------------------------------------------------------
  // filteredGrades and filteredStudents
  // ---------------------------------------------------------------------------

  /** The lower-cased subject contains the lower-cased filter. */
  predicate SubjectMatches(filter: string, g: GradeRow) {
    Text.Includes(Text.Lower(g.subject), Text.Lower(filter))
  }

  /** `filteredGrades`: the loaded grades whose subject matches, in order. */
  function FilteredGrades(grades: seq<GradeRow>, filter: string): (r: seq<GradeRow>)
    ensures forall k :: 0 <= k < |r| ==> r[k] in grades && SubjectMatches(filter, r[k])
    ensures forall k :: 0 <= k < |grades| && SubjectMatches(filter, grades[k]) ==> grades[k] in r
    ensures forall g :: multiset(r)[g] == if SubjectMatches(filter, g) then multiset(grades)[g] else 0
    ensures Seqs.IsSubsequence(r, grades)
  {
    Seqs.Filter(g => SubjectMatches(filter, g), grades)
  }

  /** An empty subject filter shows every loaded grade. */
  lemma EmptyFilterKeepsAllGrades(grades: seq<GradeRow>)
    ensures FilteredGrades(grades, "") == grades
  {
    forall k | 0 <= k < |grades|
      ensures SubjectMatches("", grades[k])
    {
      Text.IncludesEmpty(Text.Lower(grades[k].subject));
    }
    Seqs.FilterKeepsAll(g => SubjectMatches("", g), grades);
  }

  /** The subject filter ignores case: filters equal up to case select alike. */
  lemma SubjectFilterIgnoresCase(grades: seq<GradeRow>, filter: string, other: string)
    requires Text.Lower(filter) == Text.Lower(other)
    ensures FilteredGrades(grades, filter) == FilteredGrades(grades, other)
  {
    Seqs.FilterAgrees(g => SubjectMatches(filter, g), g => SubjectMatches(other, g), grades);
  }

  /** The lower-cased name or the lower-cased e-mail contains the lower-cased term. */
  predicate StudentMatches(term: string, s: StudentRow) {
    Text.Includes(Text.Lower(s.name), Text.Lower(term)) ||
    Text.Includes(Text.Lower(s.email), Text.Lower(term))
  }

  /** `filteredStudents`: the loaded students matching the search term, in order. */
  function FilteredStudents(students: seq<StudentRow>, term: string): (r: seq<StudentRow>)
    ensures forall k :: 0 <= k < |r| ==> r[k] in students && StudentMatches(term, r[k])
    ensures forall k :: 0 <= k < |students| && StudentMatches(term, students[k]) ==> students[k] in r
    ensures forall s :: multiset(r)[s] == if StudentMatches(term, s) then multiset(students)[s] else 0
    ensures Seqs.IsSubsequence(r, students)
  {
    Seqs.Filter(s => StudentMatches(term, s), students)
  }

  /** An empty search term shows every loaded student. */
  lemma EmptySearchKeepsAllStudents(students: seq<StudentRow>)
    ensures FilteredStudents(students, "") == students
  {
    forall k | 0 <= k < |students|
      ensures StudentMatches("", students[k])
    {
      Text.IncludesEmpty(Text.Lower(students[k].name));
    }
    Seqs.FilterKeepsAll(s => StudentMatches("", s), students);
  }

  // ---------------------------------------------------------------------------
  // The dashboard: Total Subjects and Average Grade
  // ---------------------------------------------------------------------------

  /** The set of subjects among the loaded grades. */
  function Subjects(grades: seq<GradeRow>): (r: set<string>)
    ensures forall s :: s in r <==> exists k :: 0 <= k < |grades| && grades[k].subject == s
  {
    if |grades| == 0 then {}
    else
      var rest := Subjects(grades[1..]);
      assert forall k :: 1 <= k < |grades| ==> grades[k] == grades[1..][k - 1];
      {grades[0].subject} + rest
  }

  lemma {:induction false} SubjectsBound(grades: seq<GradeRow>)
    ensures |Subjects(grades)| <= |grades|
    ensures |grades| > 0 ==> |Subjects(grades)| > 0
  {
    if |grades| > 0 {
      SubjectsBound(grades[1..]);
      var rest := Subjects(grades[1..]);
      assert Subjects(grades) == {grades[0].subject} + rest;
      if grades[0].subject in rest {
        assert Subjects(grades) == rest;
      } else {
        assert |Subjects(grades)| == |rest| + 1;
      }
    }
  }

  /** `new Set(grades.map(g => g.subject)).size`: at most one per grade, and 0
      exactly when no grades are loaded. */
  function SubjectCount(grades: seq<GradeRow>): (n: nat)
    ensures n <= |grades|
    ensures n == 0 <==> |grades| == 0
  {
    SubjectsBound(grades);
    |Subjects(grades)|
  }

  predicate DistinctSubjects(grades: seq<GradeRow>) {
    forall k, l :: 0 <= k < l < |grades| ==> grades[k].subject != grades[l].subject
  }

  /** No subject repeats in a non-empty list exactly when none repeats in its
      tail and the first subject does not occur there. */
  lemma DistinctCons(grades: seq<GradeRow>)
    requires |grades| > 0
    ensures DistinctSubjects(grades) <==>
              DistinctSubjects(grades[1..]) && grades[0].subject !in Subjects(grades[1..])
  {
    var rest := grades[1..];
    assert forall k :: 1 <= k < |grades| ==> grades[k] == rest[k - 1];
    if grades[0].subject in Subjects(rest) {
      var j :| 0 <= j < |rest| && rest[j].subject == grades[0].subject;
      assert grades[j + 1].subject == grades[0].subject;
    }
    if DistinctSubjects(grades) {
      forall k, l | 0 <= k < l < |rest|
        ensures rest[k].subject != rest[l].subject
      {
        assert grades[k + 1].subject != grades[l + 1].subject;
      }
    }
  }

  /** The count reaches the number of grades exactly when no subject repeats. */
  lemma {:induction false} SubjectCountExact(grades: seq<GradeRow>)
    ensures SubjectCount(grades) == |grades| <==> DistinctSubjects(grades)
  {
    if |grades| > 0 {
      var rest := grades[1..];
      var x := grades[0].subject;
      SubjectCountExact(rest);
      SubjectsBound(rest);
      DistinctCons(grades);
      assert Subjects(grades) == {x} + Subjects(rest);
      if x in Subjects(rest) {
        assert Subjects(grades) == Subjects(rest);
      } else {
        assert |Subjects(grades)| == |Subjects(rest)| + 1;
      }
    }
  }

  /** The exact (rational) mean of one grade's three scores. */
  function RowAverage(g: GradeRow): real {
    (g.activity + g.quiz + g.exam) as real / 3.0
  }

  /** The `reduce` accumulator: the row averages summed from the left. */
  function SumOfAverages(grades: seq<GradeRow>): real {
    if |grades| == 0 then 0.0 else SumOfAverages(grades[..|grades| - 1]) + RowAverage(grades[|grades| - 1])
  }

  /** For in-range scores, the summed row averages lie between 0 and 100 per grade. */
  lemma {:induction false} SumOfAveragesBounds(grades: seq<GradeRow>)
    ensures (forall k :: 0 <= k < |grades| ==> ScoresInRange(grades[k].activity, grades[k].quiz, grades[k].exam)) ==>
              0.0 <= SumOfAverages(grades) <= 100.0 * |grades| as real
  {
    if |grades| > 0 {
      var prefix := grades[..|grades| - 1];
      assert forall k :: 0 <= k < |prefix| ==> prefix[k] == grades[k];
      SumOfAveragesBounds(prefix);
    }
  }

  /** `calculateAverage`, over exact rationals: 0 for no grades, otherwise the
      mean of the row averages, which lies in [0, 100] for in-range scores. */
  function CalculateAverage(grades: seq<GradeRow>): (r: real)
    ensures |grades| == 0 ==> r == 0.0
    ensures (forall k :: 0 <= k < |grades| ==> ScoresInRange(grades[k].activity, grades[k].quiz, grades[k].exam)) ==>
              0.0 <= r <= 100.0
  {
    if |grades| == 0 then 0.0
    else
      SumOfAveragesBounds(grades);
      SumOfAverages(grades) / |grades| as real
  }

  // ---------------------------------------------------------------------------
  // The average column of the grade table
  // ---------------------------------------------------------------------------

  /** `((activity + quiz + exam) / 3).toFixed(2)` on one grade row. */
  function DisplayedAverage(g: GradeRow): string {
    AverageText(g.activity + g.quiz + g.exam)
  }

  /** The shown average is the row's exact mean rounded to the nearest
      hundredth: it is off by at most a third of a hundredth. */
  lemma DisplayedAverageIsRounded(g: GradeRow)
    ensures Text.IsFixed2Text(DisplayedAverage(g))
    ensures var shown := Text.ParseFixed2(DisplayedAverage(g)) as real / 100.0;
            -1.0 / 300.0 <= shown - RowAverage(g) <= 1.0 / 300.0
  {
    var sum := g.activity + g.quiz + g.exam;
    var h := AverageHundredths(sum);
    assert -1.0 <= 3.0 * h as real - 100.0 * sum as real <= 1.0;
  }

  /** The table shows the same text the export writes in its sixth column. */
  lemma DisplayedAverageIsExported(g: GradeRow)
    requires Csv.NoCommas(g)
    ensures |Text.Split(Csv.Line(g), ',')| == 6
    ensures Text.Split(Csv.Line(g), ',')[5] == DisplayedAverage(g)
  {
    Csv.LineFields(g);
  }
}
