/**
 * The Student record: five fields, one validation rule on the subject marks,
 * and the two derived metrics, the average mark and the letter grade.
 */
module StudentModel {
  import opened Wrappers
  import opened Dicts

  const MinMark := 0
  const MaxMark := 100

  /** A student record. `age` and `classLevel` are unconstrained integers. */
  datatype Student = Student(
    name: string,
    age: int,
    classLevel: int,
    subjects: Dict,
    address: Option<string>)

  /** The validation failure: the subject whose mark lies outside [0, 100]. */
  datatype ValidationError = MarksOutOfRange(subject: string)

  /** The text the validator raises for an error. */
  function Message(e: ValidationError): (msg: string)
    ensures ("Marks for " + e.subject) <= msg
  {
    "Marks for " + e.subject + " must be between 0 and 100"
  }

  predicate InRange(mark: int) {
    MinMark <= mark <= MaxMark
  }

  /** Every mark of the dictionary lies in [0, 100]. */
  predicate ValidMarks(d: seq<Entry>) {
    forall i :: 0 <= i < |d| ==> InRange(d[i].1)
  }

  /** The record invariant that construction establishes. */
  predicate Valid(s: Student) {
    ValidMarks(s.subjects)
  }

  /**
   * The subjects validator: it walks the entries in order and fails on the
   * first one whose mark is out of range; otherwise it returns its input.
   */
  function ValidateSubjects(value: seq<Entry>): (r: Result<seq<Entry>, ValidationError>)
    ensures r.Success? <==> ValidMarks(value)
    ensures r.Success? ==> r.value == value
    ensures r.Failure? ==> exists i :: 0 <= i < |value| && !InRange(value[i].1)
                                    && ValidMarks(value[..i]) && r.error == MarksOutOfRange(value[i].0)
  {
    if value == [] then Success(value)
    else if !InRange(value[0].1) then
      assert ValidMarks(value[..0]);
      Failure(MarksOutOfRange(value[0].0))
    else
      match ValidateSubjects(value[1..])
      case Success(_) =>
        assert ValidMarks(value) by {
          forall i | 0 <= i < |value| ensures InRange(value[i].1) {
            if i > 0 { assert value[i] == value[1..][i - 1]; }
          }
        }
        Success(value)
      case Failure(e) =>
        assert exists i :: 0 <= i < |value| && !InRange(value[i].1)
                           && ValidMarks(value[..i]) && e == MarksOutOfRange(value[i].0) by {
          var j :| 0 <= j < |value| - 1 && !InRange(value[1..][j].1)
                   && ValidMarks(value[1..][..j]) && e == MarksOutOfRange(value[1..][j].0);
          assert value[..j + 1] == [value[0]] + value[1..][..j];
        }
        Failure(e)
  }

  /**
   * `Student(name=..., age=..., class_level=..., subjects=..., address=...)`:
   * succeeds exactly when every mark is in range, and then stores the fields as given.
   */
  function NewStudent(name: string, age: int, classLevel: int, subjects: Dict, address: Option<string>)
    : (r: Result<Student, ValidationError>)
    ensures r.Success? <==> ValidMarks(subjects)
    ensures r.Success? ==> r.value == Student(name, age, classLevel, subjects, address) && Valid(r.value)
    ensures r.Failure? ==> ValidateSubjects(subjects) == Failure(r.error)
  {
    match ValidateSubjects(subjects)
    case Success(_) => Success(Student(name, age, classLevel, subjects, address))
    case Failure(e) => Failure(e)
  }

  /** Construction without an address: the address is absent. */
  function NewStudentWithoutAddress(name: string, age: int, classLevel: int, subjects: Dict)
    : (r: Result<Student, ValidationError>)
    ensures r.Success? <==> ValidMarks(subjects)
    ensures r.Success? ==> r.value.address == None && r.value.subjects == subjects
  {
    NewStudent(name, age, classLevel, subjects, None)
  }

  /** The error names a subject of the input whose mark is out of range, and no earlier subject is out of range. */
  lemma ErrorNamesFirstOffender(subjects: Dict, e: ValidationError)
    requires ValidateSubjects(subjects) == Failure(e)
    ensures e.subject in Keys(subjects)
    ensures exists i :: 0 <= i < |subjects| && subjects[i].0 == e.subject && !InRange(subjects[i].1)
                      && forall j :: 0 <= j < i ==> InRange(subjects[j].1)
  {
    var i :| 0 <= i < |subjects| && !InRange(subjects[i].1)
             && ValidMarks(subjects[..i]) && e == MarksOutOfRange(subjects[i].0);
    assert forall j :: 0 <= j < i ==> subjects[..i][j] == subjects[j];
    KeysIff(subjects, e.subject);
  }

  /** `average()`: the mean of the marks, and exactly 0.0 when there are no subjects. */
  function Average(s: Student): (avg: real)
    ensures |s.subjects| == 0 ==> avg == 0.0
    ensures |s.subjects| > 0 ==> avg * (|s.subjects| as real) == SumValues(s.subjects) as real
  {
    if |s.subjects| > 0 then SumValues(s.subjects) as real / |s.subjects| as real else 0.0
  }

  /** Dividing an integer sum in [n * lo, n * hi] by a positive count n gives a value in [lo, hi]. */
  lemma MeanBounds(sum: int, n: int, lo: int, hi: int)
    requires n > 0 && n * lo <= sum <= n * hi
    ensures lo as real <= sum as real / n as real <= hi as real
  {
    var q := sum as real / n as real;
    assert q * n as real == sum as real;
    assert (n * lo) as real == n as real * lo as real;
    assert (n * hi) as real == n as real * hi as real;
  }

  /** The mean lies between the smallest and the largest mark. */
  lemma AverageBetween(s: Student, lo: int, hi: int)
    requires |s.subjects| > 0
    requires forall i :: 0 <= i < |s.subjects| ==> lo <= s.subjects[i].1 <= hi
    ensures lo as real <= Average(s) <= hi as real
  {
    SumValuesBounds(s.subjects, lo, hi);
    MeanBounds(SumValues(s.subjects), |s.subjects|, lo, hi);
  }

  /** The average of a valid student lies in [0, 100]. */
  lemma AverageInRange(s: Student)
    requires Valid(s)
    ensures MinMark as real <= Average(s) <= MaxMark as real
  {
    if |s.subjects| > 0 {
      AverageBetween(s, MinMark, MaxMark);
    }
  }

  /** The letter for an average: lower bounds 90, 80, 70 and 60 are inclusive. */
  function GradeFor(avg: real): (g: string)
    ensures g in {"A", "B", "C", "D", "F"}
    ensures g == "A" <==> 90.0 <= avg
    ensures g == "B" <==> 80.0 <= avg < 90.0
    ensures g == "C" <==> 70.0 <= avg < 80.0
    ensures g == "D" <==> 60.0 <= avg < 70.0
    ensures g == "F" <==> avg < 60.0
  {
    if avg >= 90.0 then "A"
    else if avg >= 80.0 then "B"
    else if avg >= 70.0 then "C"
    else if avg >= 60.0 then "D"
    else "F"
  }

  /** `grade()`. */
  function Grade(s: Student): (g: string)
    ensures g in {"A", "B", "C", "D", "F"}
  {
    GradeFor(Average(s))
  }

  /** The order of the letters, F lowest and A highest. */
  function Rank(g: string): int {
    if g == "A" then 4 else if g == "B" then 3 else if g == "C" then 2 else if g == "D" then 1 else 0
  }

  /** A higher average never gives a worse letter. */
  lemma GradeMonotone(a: real, b: real)
    requires a <= b
    ensures Rank(GradeFor(a)) <= Rank(GradeFor(b))
  {
  }

  /** The boundary cases: each lower bound belongs to its band. */
  lemma GradeBoundaries()
    ensures GradeFor(90.0) == "A" && GradeFor(89.999) == "B"
    ensures GradeFor(60.0) == "D" && GradeFor(59.999) == "F"
  {
  }

  /** Two subjects at 80 and 60 average 70; no subjects average 0. */
  lemma AverageExamples()
    ensures Average(Student("", 0, 0, [("Math", 80), ("Eng", 60)], None)) == 70.0
    ensures Average(Student("", 0, 0, [], None)) == 0.0
  {
    var d: Dict := [("Math", 80), ("Eng", 60)];
    assert d[..1][..0] == [];
    assert SumValues(d) == 140;
  }
}
