/**
 * The in-memory list of students held by the page: record equality, the
 * search filter, lookup by name, and the add, update and delete operations.
 */
module Roster {
  import opened Wrappers
  import opened Dicts
  import opened Text
  import opened StudentModel

  /** Record equality: every field equal, the subjects compared as dictionaries (order ignored). */
  predicate SameStudent(a: Student, b: Student) {
    && a.name == b.name
    && a.age == b.age
    && a.classLevel == b.classLevel
    && ToMap(a.subjects) == ToMap(b.subjects)
    && a.address == b.address
  }

  /** The filter: the search text occurs in the name, ignoring case, and the class matches unless the filter is 0. */
  predicate Matches(s: Student, search: string, classFilter: int) {
    IsSubstring(Lower(search), Lower(s.name)) && (classFilter == 0 || s.classLevel == classFilter)
  }

  /**
   * Record equality compares the subjects as Python dictionaries: the same
   * lookup result for every subject, whatever the order of the entries.
   */
  lemma SameStudentIff(a: Student, b: Student)
    ensures SameStudent(a, b) <==>
              && a.name == b.name && a.age == b.age && a.classLevel == b.classLevel && a.address == b.address
              && SameLookups(a.subjects, b.subjects)
  {
    SameEntries(a.subjects, b.subjects);
  }

  /** The filter condition: the lower-cased search text occurs at some position of the lower-cased name, and the class agrees unless the filter is 0. */
  lemma MatchesIff(s: Student, search: string, classFilter: int)
    ensures Matches(s, search, classFilter) <==>
              (exists i: nat :: OccursAt(Lower(search), Lower(s.name), i))
              && (classFilter == 0 || s.classLevel == classFilter)
  {
    SubstringIff(Lower(search), Lower(s.name));
  }

  /** The search ignores case: searching with the lower-cased text selects the same students. */
  lemma SearchIgnoresCase(s: Student, search: string, classFilter: int)
    ensures Matches(s, Lower(search), classFilter) == Matches(s, search, classFilter)
  {
    LowerIdempotent(search);
  }

  /** The students that pass the filter, in list order, each as often as in the list. */
  function FilterStudents(students: seq<Student>, search: string, classFilter: int): (r: seq<Student>)
    ensures |r| <= |students|
    ensures forall s :: s in r ==> Matches(s, search, classFilter)
    ensures forall s :: multiset(r)[s] == if Matches(s, search, classFilter) then multiset(students)[s] else 0
  {
    if students == [] then []
    else
      var n := |students| - 1;
      var p := students[..n];
      assert students == p + [students[n]];
      var q := FilterStudents(p, search, classFilter);
      if Matches(students[n], search, classFilter) then q + [students[n]] else q
  }

  /** A filtered student is in the list, and a student of the list that matches is kept. */
  lemma FilterMembership(students: seq<Student>, search: string, classFilter: int, s: Student)
    ensures s in FilterStudents(students, search, classFilter) <==> s in students && Matches(s, search, classFilter)
  {
    var r := FilterStudents(students, search, classFilter);
    assert s in r <==> multiset(r)[s] > 0;
    assert s in students <==> multiset(students)[s] > 0;
  }

  /** `a` is `b` with some elements left out, the rest in their order. */
  predicate IsSubsequence<T(==)>(a: seq<T>, b: seq<T>) {
    if a == [] then true
    else if b == [] then false
    else (a[|a| - 1] == b[|b| - 1] && IsSubsequence(a[..|a| - 1], b[..|b| - 1]))
         || IsSubsequence(a, b[..|b| - 1])
  }

  /** The filter keeps the relative order of the list. */
  lemma {:induction false} FilterIsSubsequence(students: seq<Student>, search: string, classFilter: int)
    ensures IsSubsequence(FilterStudents(students, search, classFilter), students)
  {
    if students != [] {
      var n := |students| - 1;
      var p := students[..n];
      FilterIsSubsequence(p, search, classFilter);
      var q := FilterStudents(p, search, classFilter);
      if Matches(students[n], search, classFilter) {
        var r := q + [students[n]];
        assert r[..|r| - 1] == q;
      }
    }
  }

  /** An empty search with class filter 0 keeps every student. */
  lemma {:induction false} FilterKeepsAll(students: seq<Student>)
    ensures FilterStudents(students, "", 0) == students
  {
    if students != [] {
      var n := |students| - 1;
      var p := students[..n];
      FilterKeepsAll(p);
      assert Lower("") == "";
      EmptyIsSubstring(Lower(students[n].name));
      assert Matches(students[n], "", 0);
      assert FilterStudents(students, "", 0) == FilterStudents(p, "", 0) + [students[n]];
      assert p + [students[n]] == students;
    }
  }

  /** The position of the first element satisfying `p`, or none. */
  function FirstIndex<T>(s: seq<T>, p: T -> bool): (r: Option<nat>)
    ensures r.None? <==> forall i :: 0 <= i < |s| ==> !p(s[i])
    ensures r.Some? ==> r.value < |s| && p(s[r.value]) && forall j :: 0 <= j < r.value ==> !p(s[j])
  {
    if s == [] then None
    else if p(s[0]) then Some(0)
    else
      assert forall i :: 1 <= i < |s| ==> s[i] == s[1..][i - 1];
      match FirstIndex(s[1..], p)
      case None => None
      case Some(i) => Some(i + 1)
  }

  /** The position of the first student named `name`. */
  function IndexOfName(students: seq<Student>, name: string): (r: Option<nat>)
    ensures r.None? <==> forall i :: 0 <= i < |students| ==> students[i].name != name
    ensures r.Some? ==> r.value < |students| && students[r.value].name == name
                        && forall j :: 0 <= j < r.value ==> students[j].name != name
  {
    FirstIndex(students, (s: Student) => s.name == name)
  }

  /** `next((s for s in students if s.name == name), None)`: the first student with that name. */
  function FindByName(students: seq<Student>, name: string): (r: Option<Student>)
    ensures r.None? <==> forall i :: 0 <= i < |students| ==> students[i].name != name
    ensures r.Some? ==> exists i :: 0 <= i < |students| && students[i] == r.value && r.value.name == name
                                  && forall j :: 0 <= j < i ==> students[j].name != name
  {
    match IndexOfName(students, name)
    case None => None
    case Some(i) => Some(students[i])
  }

  /** `students.index(x)`: the position of the first student equal to `x`, or none (a ValueError). */
  function IndexOf(students: seq<Student>, x: Student): (r: Option<nat>)
    ensures r.None? <==> forall i :: 0 <= i < |students| ==> !SameStudent(students[i], x)
    ensures r.Some? ==> r.value < |students| && SameStudent(students[r.value], x)
                        && forall j :: 0 <= j < r.value ==> !SameStudent(students[j], x)
  {
    FirstIndex(students, (s: Student) => SameStudent(s, x))
  }

  /** A name picked from the filtered list is always found by the lookup in the full list. */
  lemma FilteredNameIsFound(students: seq<Student>, search: string, classFilter: int, s: Student)
    requires s in FilterStudents(students, search, classFilter)
    ensures FindByName(students, s.name).Some?
  {
    FilterMembership(students, search, classFilter, s);
  }

  /**
   * The student found by name sits at the first position with that name, so
   * update and delete, which locate it by equality, act on the first student
   * carrying that name.
   */
  lemma LookupThenIndex(students: seq<Student>, name: string)
    requires FindByName(students, name).Some?
    ensures IndexOf(students, FindByName(students, name).value) == IndexOfName(students, name)
  {
    var i := IndexOfName(students, name).value;
    var x := students[i];
    assert FindByName(students, name) == Some(x);
    assert SameStudent(students[i], x);
    var k := IndexOf(students, x).value;
    assert k <= i;
    assert students[k].name == name;
  }

  // ---------------------------------------------------------------------------
  // The list of students held by the page.

  /** Cutting out position `i` removes one occurrence of that element and nothing else. */
  lemma RemoveAtMultiset<T>(s: seq<T>, i: nat)
    requires i < |s|
    ensures multiset(s[..i] + s[i + 1..]) == multiset(s) - multiset{s[i]}
  {
    assert s == s[..i] + [s[i]] + s[i + 1..];
  }

  datatype AddOutcome = NoSubjects | Rejected(error: ValidationError) | Added(student: Student)

  datatype UpdateOutcome = UpdateRejected(error: ValidationError) | NotInList | Updated(index: nat, student: Student)

  /** The in-memory list of students, in insertion order. */
  class StudentList {
    var students: seq<Student>

    /** Every student in the list passed validation. */
    predicate AllValid()
      reads this
    {
      forall i :: 0 <= i < |students| ==> Valid(students[i])
    }

    /** The list as loaded; every loaded entry went through construction. */
    constructor (loaded: seq<Student>)
      requires forall i :: 0 <= i < |loaded| ==> Valid(loaded[i])
      ensures AllValid() && students == loaded
    {
      students := loaded;
    }

    /**
     * Submitting the registration form: with no subjects nothing is built;
     * otherwise the student is constructed and, when validation succeeds,
     * appended at the end.
     */
    method Add(name: string, age: int, classLevel: int, subjects: Dict, address: Option<string>)
      returns (outcome: AddOutcome)
      requires AllValid()
      modifies this
      ensures AllValid()
      ensures outcome.NoSubjects? <==> subjects == []
      ensures outcome.Added? <==> subjects != [] && ValidMarks(subjects)
      ensures outcome.Rejected? ==> ValidateSubjects(subjects) == Failure(outcome.error)
      ensures outcome.Added? ==> outcome.student == Student(name, age, classLevel, subjects, address)
                                 && students == old(students) + [outcome.student]
      ensures !outcome.Added? ==> students == old(students)
    {
      if subjects == [] {
        return NoSubjects;
      }
      match NewStudent(name, age, classLevel, subjects, address)
      case Failure(e) =>
        outcome := Rejected(e);
      case Success(s) =>
        students := students + [s];
        outcome := Added(s);
    }

    /**
     * The update button: the edited student is constructed first; then the
     * selected student is located by equality and replaced at that position.
     */
    method Update(selected: Student, name: string, age: int, classLevel: int, subjects: Dict, address: Option<string>)
      returns (outcome: UpdateOutcome)
      requires AllValid()
      modifies this
      ensures AllValid()
      ensures outcome.UpdateRejected? <==> !ValidMarks(subjects)
      ensures outcome.UpdateRejected? ==> ValidateSubjects(subjects) == Failure(outcome.error)
      ensures outcome.NotInList? <==> ValidMarks(subjects) && IndexOf(old(students), selected).None?
      ensures outcome.Updated? ==>
                && IndexOf(old(students), selected) == Some(outcome.index)
                && outcome.student == Student(name, age, classLevel, subjects, address)
                && |students| == |old(students)|
                && students[outcome.index] == outcome.student
                && forall j :: 0 <= j < |students| && j != outcome.index ==> students[j] == old(students)[j]
      ensures !outcome.Updated? ==> students == old(students)
    {
      match NewStudent(name, age, classLevel, subjects, address)
      case Failure(e) =>
        outcome := UpdateRejected(e);
      case Success(s) =>
        match IndexOf(students, selected)
        case None =>
          outcome := NotInList;
        case Some(index) =>
          students := students[index := s];
          outcome := Updated(index, s);
    }

    /** The delete button: removes the first student equal to the selected one. */
    method Delete(selected: Student) returns (removed: Option<nat>)
      requires AllValid()
      modifies this
      ensures AllValid()
      ensures removed == IndexOf(old(students), selected)
      ensures removed.Some? ==>
                && |students| == |old(students)| - 1
                && students == old(students)[..removed.value] + old(students)[removed.value + 1..]
                && multiset(students) == multiset(old(students)) - multiset{old(students)[removed.value]}
      ensures removed.None? ==> students == old(students)
    {
      removed := IndexOf(students, selected);
      if removed.Some? {
        var i := removed.value;
        RemoveAtMultiset(students, i);
        students := students[..i] + students[i + 1..];
      }
    }
  }
}
