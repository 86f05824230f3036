/** The per-subject class statistics: totals, counts and averages over all students. */
module ClassStats {
  import opened Dicts
  import opened StudentModel

  /** Every subject name that some student has. */
  function AllSubjects(students: seq<Student>): set<string> {
    if students == [] then {}
    else AllSubjects(students[..|students| - 1]) + Keys(students[|students| - 1].subjects)
  }

  /** A subject is in the union exactly when some student has it. */
  lemma {:induction false} AllSubjectsIff(students: seq<Student>, k: string)
    ensures k in AllSubjects(students) <==> exists i :: 0 <= i < |students| && k in Keys(students[i].subjects)
  {
    if students != [] {
      var n := |students| - 1;
      assert forall i :: 0 <= i < n ==> students[..n][i] == students[i];
      AllSubjectsIff(students[..n], k);
    }
  }

  /** The sum of the marks in subject `k` over the students that have it. */
  function TotalMarks(students: seq<Student>, k: string): int {
    if students == [] then 0
    else TotalMarks(students[..|students| - 1], k) + GetOrZero(students[|students| - 1].subjects, k)
  }

  /** The number of students that have subject `k`. */
  function CountTaking(students: seq<Student>, k: string): nat {
    if students == [] then 0
    else CountTaking(students[..|students| - 1], k) + (if k in Keys(students[|students| - 1].subjects) then 1 else 0)
  }

  /** A subject somebody has is counted at least once and at most once per student; any other is never counted. */
  lemma {:induction false} CountBounds(students: seq<Student>, k: string)
    ensures CountTaking(students, k) <= |students|
    ensures k in AllSubjects(students) <==> CountTaking(students, k) >= 1
  {
    if students != [] {
      CountBounds(students[..|students| - 1], k);
    }
  }

  /** For valid students the total of a subject lies in [0, 100 * count]. */
  lemma {:induction false} TotalBounds(students: seq<Student>, k: string)
    requires forall i :: 0 <= i < |students| ==> Valid(students[i])
    ensures MinMark * CountTaking(students, k) <= TotalMarks(students, k) <= MaxMark * CountTaking(students, k)
  {
    if students != [] {
      var n := |students| - 1;
      var last := students[n].subjects;
      assert forall i :: 0 <= i < n ==> students[..n][i] == students[i];
      TotalBounds(students[..n], k);
      if k in Keys(last) {
        var v := Get(last, k).value;
        assert InRange(v) by {
          var i :| 0 <= i < |last| && last[i] == (k, v);
        }
      }
    }
  }

  /** A subject nobody has contributes nothing. */
  lemma {:induction false} StatisticsOutside(students: seq<Student>, k: string)
    requires k !in AllSubjects(students)
    ensures TotalMarks(students, k) == 0 && CountTaking(students, k) == 0
  {
    if students != [] {
      StatisticsOutside(students[..|students| - 1], k);
    }
  }

  /** `d.get(k, 0)` on the statistics dictionaries. */
  function GetOr(m: map<string, int>, k: string, default: int): int {
    if k in m then m[k] else default
  }

  /** The inner loop's effect on the totals: each entry's mark is added under its subject. */
  function AddMarks(totals: map<string, int>, e: seq<Entry>): map<string, int> {
    if e == [] then totals
    else
      var before := AddMarks(totals, e[..|e| - 1]);
      before[e[|e| - 1].0 := GetOr(before, e[|e| - 1].0, 0) + e[|e| - 1].1]
  }

  /** The inner loop's effect on the counts: each entry's subject is counted once more. */
  function AddOnes(counts: map<string, int>, e: seq<Entry>): map<string, int> {
    if e == [] then counts
    else
      var before := AddOnes(counts, e[..|e| - 1]);
      before[e[|e| - 1].0 := GetOr(before, e[|e| - 1].0, 0) + 1]
  }

  /** The totals after the outer loop has visited `students`. */
  function LoopTotals(students: seq<Student>): map<string, int> {
    if students == [] then map[]
    else AddMarks(LoopTotals(students[..|students| - 1]), students[|students| - 1].subjects)
  }

  /** The counts after the outer loop has visited `students`. */
  function LoopCounts(students: seq<Student>): map<string, int> {
    if students == [] then map[]
    else AddOnes(LoopCounts(students[..|students| - 1]), students[|students| - 1].subjects)
  }

  /** One turn of the inner loop adds the `j`-th entry to what the first `j` entries gave. */
  lemma InnerStep(totals: map<string, int>, counts: map<string, int>, e: seq<Entry>, j: nat)
    requires j < |e|
    ensures AddMarks(totals, e[..j + 1]) ==
            AddMarks(totals, e[..j])[e[j].0 := GetOr(AddMarks(totals, e[..j]), e[j].0, 0) + e[j].1]
    ensures AddOnes(counts, e[..j + 1]) ==
            AddOnes(counts, e[..j])[e[j].0 := GetOr(AddOnes(counts, e[..j]), e[j].0, 0) + 1]
  {
    assert e[..j + 1][..j] == e[..j];
  }

  /** One turn of the outer loop folds the `i`-th student's subjects into what the first `i` students gave. */
  lemma OuterStep(students: seq<Student>, i: nat)
    requires i < |students|
    ensures LoopTotals(students[..i + 1]) == AddMarks(LoopTotals(students[..i]), students[i].subjects)
    ensures LoopCounts(students[..i + 1]) == AddOnes(LoopCounts(students[..i]), students[i].subjects)
  {
    assert students[..i + 1][..i] == students[..i];
  }

  /** Adding the next entry of a dictionary: its key is new among the entries before it. */
  lemma EntryStep(entries: Dict, j: nat, k: string)
    requires j < |entries|
    ensures Keys(entries[..j + 1]) == Keys(entries[..j]) + {entries[j].0}
    ensures k == entries[j].0 ==> k !in Keys(entries[..j])
    ensures GetOrZero(entries[..j + 1], k) == GetOrZero(entries[..j], k) + (if k == entries[j].0 then entries[j].1 else 0)
  {
    assert entries[..j + 1][..j] == entries[..j];
    if k == entries[j].0 {
      assert k !in Keys(entries[..j]) by {
        KeysIff(entries[..j], k);
        forall i | 0 <= i < j ensures entries[..j][i].0 != k {
          assert entries[..j][i] == entries[i];
        }
      }
    }
  }

  /** Adding one student's dictionary adds its mark to every subject it has, once. */
  lemma {:induction false} AddMarksMeaning(totals: map<string, int>, entries: Dict, j: nat, k: string)
    requires j <= |entries|
    ensures AddMarks(totals, entries[..j]).Keys == totals.Keys + Keys(entries[..j])
    ensures GetOr(AddMarks(totals, entries[..j]), k, 0) == GetOr(totals, k, 0) + GetOrZero(entries[..j], k)
  {
    if j == 0 {
      assert entries[..0] == [];
    } else {
      assert entries[..j][..j - 1] == entries[..j - 1];
      AddMarksMeaning(totals, entries, j - 1, k);
      AddMarksMeaning(totals, entries, j - 1, entries[j - 1].0);
      EntryStep(entries, j - 1, k);
    }
  }

  /** Adding one student's dictionary counts every subject it has, once. */
  lemma {:induction false} AddOnesMeaning(counts: map<string, int>, entries: Dict, j: nat, k: string)
    requires j <= |entries|
    ensures AddOnes(counts, entries[..j]).Keys == counts.Keys + Keys(entries[..j])
    ensures GetOr(AddOnes(counts, entries[..j]), k, 0) == GetOr(counts, k, 0) + (if k in Keys(entries[..j]) then 1 else 0)
  {
    if j == 0 {
      assert entries[..0] == [];
    } else {
      assert entries[..j][..j - 1] == entries[..j - 1];
      AddOnesMeaning(counts, entries, j - 1, k);
      AddOnesMeaning(counts, entries, j - 1, entries[j - 1].0);
      EntryStep(entries, j - 1, k);
    }
  }

  /** The loops' totals hold, for every subject somebody has, the sum of its marks. */
  lemma {:induction false} LoopTotalsMeaning(students: seq<Student>, k: string)
    ensures LoopTotals(students).Keys == AllSubjects(students)
    ensures GetOr(LoopTotals(students), k, 0) == TotalMarks(students, k)
  {
    if students != [] {
      var n := |students| - 1;
      var entries := students[n].subjects;
      LoopTotalsMeaning(students[..n], k);
      AddMarksMeaning(LoopTotals(students[..n]), entries, |entries|, k);
      assert entries[..|entries|] == entries;
    }
  }

  /** The loops' counts hold, for every subject somebody has, the number of students having it. */
  lemma {:induction false} LoopCountsMeaning(students: seq<Student>, k: string)
    ensures LoopCounts(students).Keys == AllSubjects(students)
    ensures GetOr(LoopCounts(students), k, 0) == CountTaking(students, k)
  {
    if students != [] {
      var n := |students| - 1;
      var entries := students[n].subjects;
      LoopCountsMeaning(students[..n], k);
      AddOnesMeaning(LoopCounts(students[..n]), entries, |entries|, k);
      assert entries[..|entries|] == entries;
    }
  }

  /** What the loops' dictionaries hold, for every subject at once. */
  lemma LoopStatistics(students: seq<Student>)
    ensures LoopTotals(students).Keys == AllSubjects(students) && LoopCounts(students).Keys == AllSubjects(students)
    ensures forall k :: k in LoopTotals(students) ==> LoopTotals(students)[k] == TotalMarks(students, k)
    ensures forall k :: k in LoopCounts(students) ==>
              LoopCounts(students)[k] == CountTaking(students, k) && 1 <= LoopCounts(students)[k] <= |students|
  {
    LoopTotalsMeaning(students, "");
    LoopCountsMeaning(students, "");
    forall k | k in AllSubjects(students)
      ensures LoopTotals(students)[k] == TotalMarks(students, k)
      ensures LoopCounts(students)[k] == CountTaking(students, k) && 1 <= LoopCounts(students)[k] <= |students|
    {
      LoopTotalsMeaning(students, k);
      LoopCountsMeaning(students, k);
      CountBounds(students, k);
    }
  }

  /**
   * The nested loops over students and their subjects that accumulate, per
   * subject, the total of the marks and the number of students having it.
   */
  method SubjectTotals(students: seq<Student>) returns (totals: map<string, int>, counts: map<string, int>)
    ensures totals.Keys == AllSubjects(students) && counts.Keys == AllSubjects(students)
    ensures forall k :: k in totals ==> totals[k] == TotalMarks(students, k)
    ensures forall k :: k in counts ==> counts[k] == CountTaking(students, k) && 1 <= counts[k] <= |students|
  {
    totals, counts := map[], map[];
    var i := 0;
    while i < |students|
      invariant 0 <= i <= |students|
      invariant totals == LoopTotals(students[..i])
      invariant counts == LoopCounts(students[..i])
    {
      var entries := students[i].subjects;
      ghost var totals0, counts0 := totals, counts;
      assert entries[..0] == [];
      var j := 0;
      while j < |entries|
        invariant 0 <= j <= |entries|
        invariant totals == AddMarks(totals0, entries[..j])
        invariant counts == AddOnes(counts0, entries[..j])
      {
        var subject, mark := entries[j].0, entries[j].1;
        InnerStep(totals0, counts0, entries, j);
        totals := totals[subject := GetOr(totals, subject, 0) + mark];
        counts := counts[subject := GetOr(counts, subject, 0) + 1];
        j := j + 1;
      }
      OuterStep(students, i);
      assert entries[..j] == entries;
      i := i + 1;
    }
    assert students[..i] == students;
    LoopStatistics(students);
  }

  /** `{subject: totals[subject] / counts[subject] for subject in totals}`. */
  function ClassAverages(totals: map<string, int>, counts: map<string, int>): (averages: map<string, real>)
    requires forall k :: k in totals ==> k in counts && counts[k] != 0
    ensures averages.Keys == totals.Keys
    ensures forall k :: k in averages ==> averages[k] * counts[k] as real == totals[k] as real
  {
    map k | k in totals :: totals[k] as real / counts[k] as real
  }

  /** For valid students, the class average of one subject lies in [0, 100]. */
  lemma SubjectAverageInRange(students: seq<Student>, k: string)
    requires forall i :: 0 <= i < |students| ==> Valid(students[i])
    requires k in AllSubjects(students)
    ensures CountTaking(students, k) >= 1
    ensures MinMark as real <= TotalMarks(students, k) as real / CountTaking(students, k) as real <= MaxMark as real
  {
    TotalBounds(students, k);
    CountBounds(students, k);
    MeanBounds(TotalMarks(students, k), CountTaking(students, k), MinMark, MaxMark);
  }

  /** When every student is valid, the class averages computed from the loops' dictionaries lie in [0, 100]. */
  lemma ClassAveragesInRange(students: seq<Student>, totals: map<string, int>, counts: map<string, int>)
    requires forall i :: 0 <= i < |students| ==> Valid(students[i])
    requires totals.Keys == AllSubjects(students) && counts.Keys == AllSubjects(students)
    requires forall k :: k in totals ==> totals[k] == TotalMarks(students, k) && counts[k] == CountTaking(students, k)
    ensures forall k :: k in totals ==> counts[k] >= 1
    ensures forall k :: k in ClassAverages(totals, counts) ==>
              MinMark as real <= ClassAverages(totals, counts)[k] <= MaxMark as real
  {
    forall k | k in totals ensures counts[k] >= 1 {
      SubjectAverageInRange(students, k);
    }
    var averages := ClassAverages(totals, counts);
    forall k | k in averages ensures MinMark as real <= averages[k] <= MaxMark as real {
      SubjectAverageInRange(students, k);
    }
  }
}
