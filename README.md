# Student management core in Dafny

This project models the core of a small student-management application. A
`Student` record holds a name, an age, a class level, a dictionary from subject
to mark, and an optional address. Construction validates every mark against
[0, 100] and names the first subject whose mark is out of range. A student has
an average (0.0 when there are no subjects) and a letter grade from A to F.

The application page works on the in-memory list of students. It can:

- build a subjects dictionary from the rows of the registration form;
- add a validated student;
- filter by name substring (case-insensitive) and class level;
- look a student up by name;
- replace or remove the selected student;
- compute per-subject class totals, counts and averages.

Modules:

- `Wrappers`: `Option` and `Result`.
- `Dicts`: a Python `dict[str, int]` as an ordered association list with distinct keys (`Dict`). Insertion order matters in the source: validation reports the first offending subject, and assigning to an existing key keeps its position. Provides `Get`, `Put`, `Keys`, `ToMap` and `SumValues`.
- `Text`: ASCII `str.lower()` and the substring test behind Python's `in` on strings.
- `StudentModel`: the `Student` record, its validator, `average` and `grade` (models/student.py).
- `Registration`: the registration form's subject loop (main.py).
- `Roster`: record equality, the filter, the name lookups, and the `StudentList` class. Record equality (`SameStudent`) models pydantic's `==` on two students, which `list.index` and `list.remove` rely on. It compares every field, and it compares the subjects as Python dictionaries do: the same mark for every subject, whatever the order of the entries. The class keeps the students in a mutable `seq` field and has `Add`, `Update` and `Delete` methods (main.py).
- `ClassStats`: the nested aggregation loops and the class averages (main.py).

There are two loops. Each is a method proved against a fold function that mirrors the loop, and separate lemmas give the fold its meaning:

- `CollectSubjects` is proved against `Collected`. A name's value is the mark of the last row with that name. The names stand in the order of their first rows, which decides the subject a validation error names.
- `SubjectTotals` is proved against `LoopTotals`/`LoopCounts`. Totals are the sums of marks over the students taking a subject; counts are the number of those students.

Marks are mathematical integers and averages are exact `real`s.

## Model

| member | source | states |
|---|---|---|
| StudentModel.ValidateSubjects | models/student.py:13-19 | Succeeds exactly when every mark is in [0, 100], returning the dictionary unchanged. On failure, the reported subject belongs to the first out-of-range entry: every earlier entry is in range. |
| StudentModel.Message | models/student.py:18 | The error text starts with "Marks for " followed by the offending subject. |
| StudentModel.NewStudent | models/student.py:6-19 | Construction succeeds exactly when the marks are valid, and then yields a valid record with the given fields. Otherwise it fails with the validator's error. |
| StudentModel.NewStudentWithoutAddress | models/student.py:11 | Omitting the address yields a student with no address. It succeeds exactly when the marks are valid. |
| StudentModel.ErrorNamesFirstOffender | models/student.py:16-18 | A validation error names a subject of the dictionary whose mark is out of range. |
| StudentModel.Average | models/student.py:21-23 | 0.0 for no subjects. Otherwise the average times the number of subjects equals the sum of the marks. |
| StudentModel.AverageBetween | models/student.py:21-23 | If every mark lies in [lo, hi], so does the average. |
| StudentModel.AverageInRange | models/student.py:13-23 | A validated student's average lies in [0, 100]. |
| StudentModel.MeanBounds | models/student.py:23 | A sum of n values, each in [lo, hi], divided by n lies in [lo, hi]. |
| StudentModel.AverageExamples | models/student.py:21-23 | Marks 80 and 60 average 70.0. No subjects gives 0.0. |
| StudentModel.GradeFor | models/student.py:25-37 | The grade is one of A-F. Each letter holds exactly on its band: A from 90, B in [80, 90), C in [70, 80), D in [60, 70), F below 60. |
| StudentModel.Grade | models/student.py:25-27 | A student's grade is one of the five letters. |
| StudentModel.GradeMonotone | models/student.py:28-37 | A higher average never yields a worse letter. |
| StudentModel.GradeBoundaries | models/student.py:28-37 | Each band's lower bound is inclusive: 90.0 is A, just below is B, 60.0 is D, just below is F. |
| Dicts.Get | main.py:62 | A key has a value exactly when it is a key of the dictionary, and that value is the one stored with it. |
| Dicts.KeysIff | main.py:199 | A key is in the key set exactly when some entry carries it. |
| Dicts.GetAt | main.py:199 | Looking up an entry's key yields that entry's value. |
| Dicts.GetIff | main.py:62 | A lookup yields v exactly when the pair (k, v) is stored. |
| Dicts.KeyIndex | main.py:62 | The position of an existing key holds that key. |
| Dicts.PutInPlace | main.py:62 | Overwriting an existing key where it stands keeps the keys distinct and the key set unchanged. Only that key's value changes. |
| Dicts.Put | main.py:62 | After `d[k] = v`, k maps to v and other keys keep their values. A new key is appended at the end. An existing key keeps its position and the positions of all keys are unchanged. |
| Dicts.ToMap | models/student.py:10 | The order-free view of a dictionary has the same keys and values. |
| Dicts.SameEntries | models/student.py:10 | Two dictionaries have equal order-free views exactly when every key looks up the same in both, as Python's dictionary `==` requires. |
| Dicts.SumValuesBounds | models/student.py:23 | The sum of n values, each in [lo, hi], lies between n·lo and n·hi. |
| Text.Lower | main.py:120 | Lower-casing keeps the length. |
| Text.LowerIdempotent | main.py:120 | Lower-casing twice is lower-casing once. `Roster.SearchIgnoresCase` relies on it. |
| Text.SubstringIff | main.py:120 | `p in t` holds exactly when p occurs at some position of t. |
| Text.EmptyIsSubstring | main.py:120 | The empty search text is found in every name. |
| Registration.LastEntered | main.py:57-62 | There is a last mark for a name exactly when some row carries that name. |
| Registration.LastEnteredIff | main.py:57-62 | The last mark for k is m exactly when some row is (k, m) and no later row is named k (`IsLastRow`). |
| Registration.FirstRow | main.py:58-62 | The first row named k: every earlier row has another name. It is the number of rows when no row has that name. |
| Registration.CollectedMeaning | main.py:57-62 | The dictionary built from the rows has no empty name and at most one entry per row. Each non-empty name maps to its last row's mark. |
| Registration.CollectedKeys | main.py:57-62 | The dictionary's names are exactly the non-empty names entered. |
| Registration.CollectedInFirstRowOrder | main.py:57-62 | Each name of the built dictionary is entered in some row. For any two entries, the earlier one's name has the earlier first row, because a repeated name is overwritten where it stands. |
| Registration.NewNameFirstRow | main.py:61-62 | A non-empty name that first appears in the last row has that row as its first row. |
| Registration.FirstOffenderFollowsEntryOrder | main.py:57-92 | Rows ("b", 101) and ("a", 200) build the dictionary in that order, so validation names "b". |
| Registration.CollectSubjects | main.py:57-62 | The loop builds exactly `Collected(rows)`, so the names are in first-row order (`CollectedInFirstRowOrder`). Its keys are exactly the non-empty names entered. Each key maps to the mark of its last row. It has no more entries than rows. |
| Roster.SameStudentIff | main.py:160 | Two students are equal exactly when name, age, class level and address agree and every subject looks up the same mark in both. Entry order is ignored. |
| Roster.MatchesIff | main.py:120-121 | The filter condition holds exactly when the lower-cased search text occurs at some position of the lower-cased name, and the class filter is 0 or equals the class level. |
| Roster.SearchIgnoresCase | main.py:120 | Searching with the lower-cased text selects the same students as the text itself. |
| Roster.FilterStudents | main.py:118-122 | Keeps exactly the matching students, each with its multiplicity. Every kept student matches, and the result is no longer than the list. |
| Roster.FilterMembership | main.py:118-122 | A student is in the filtered list exactly when it is in the list and matches. |
| Roster.FilterIsSubsequence | main.py:118-122 | The filtered list is a subsequence of the list, so the order is kept. |
| Roster.FilterKeepsAll | main.py:105-122 | With the reset filters (empty search, class 0), the filtered list is the whole list. |
| Roster.FirstIndex | main.py:133 | Finds nothing exactly when no element satisfies the predicate. Otherwise it returns the first position that does. |
| Roster.IndexOfName | main.py:133 | Finds nothing exactly when no student has the name. Otherwise it returns a position holding that name. |
| Roster.FindByName | main.py:133 | `None` exactly when no student has the name. Otherwise it is a student of the list with that name. The same lookup serves the chart's student selection at main.py:185. |
| Roster.IndexOf | main.py:160 | `list.index`: nothing exactly when no student is equal to x. Otherwise it returns a position holding a student equal to x. |
| Roster.FilteredNameIsFound | main.py:129-135 | Any name offered from the filtered list is found in the full list. |
| Roster.LookupThenIndex | main.py:133-171 | The first student with a name and the first student equal to it are at the same position. |
| Roster.RemoveAtMultiset | main.py:171 | Removing the element at i takes exactly one copy of it out of the multiset. |
| Roster.StudentList.constructor | main.py:41 | The list starts as the loaded students, all valid. |
| Roster.StudentList.Add | main.py:73-92 | No subjects means a warning and no change. Invalid marks are rejected with the validator's error and no change. Otherwise exactly the new student is appended at the end. The list stays valid. |
| Roster.StudentList.Update | main.py:150-167 | Invalid marks are rejected first, with no change. Then the first student equal to the selected one is replaced at its position by the new record. All other positions are unchanged. |
| Roster.StudentList.Delete | main.py:169-174 | Removes the first student equal to the selected one. The length drops by one and exactly one copy leaves the multiset. The rest of the list is unchanged, in order. |
| ClassStats.AllSubjectsIff | main.py:198-199 | A subject is in the union exactly when some student has it. |
| ClassStats.CountBounds | main.py:201 | A subject's count is at most the number of students. It is at least 1 exactly when some student has the subject. |
| ClassStats.TotalBounds | main.py:200 | For valid students, a subject's total lies between 0 and 100 times its count. |
| ClassStats.StatisticsOutside | main.py:198-201 | A subject no student has gets total 0 and count 0. |
| ClassStats.InnerStep | main.py:199-201 | Proof step for the inner loop: the fold over one more entry is the inner body's two `.get(subject, 0)` updates. |
| ClassStats.OuterStep | main.py:198 | Proof step for the outer loop: the fold over one more student adds that student's subjects. |
| ClassStats.EntryStep | main.py:199 | The next entry's key is new among the entries before it. With it, the key set and the per-key marks grow by exactly that entry. |
| ClassStats.AddMarksMeaning | main.py:199-200 | The inner loop adds each subject's mark of the student to its running total, and adds its subjects to the keys. |
| ClassStats.AddOnesMeaning | main.py:199-201 | The inner loop adds one to the count of each subject the student has. |
| ClassStats.LoopTotalsMeaning | main.py:195-200 | After the loops, the totals' keys are all subjects taken. Each total is the sum of that subject's marks over the students. |
| ClassStats.LoopCountsMeaning | main.py:196-201 | After the loops, each count is the number of students having the subject. |
| ClassStats.LoopStatistics | main.py:195-201 | Both dictionaries have exactly the subjects taken as keys, with the reference totals and counts. Every count is between 1 and the number of students. |
| ClassStats.SubjectTotals | main.py:195-201 | The nested loops return totals and counts whose keys are exactly the subjects taken. Values are the sum of marks and the number of students per subject, and each count is between 1 and the number of students. |
| ClassStats.ClassAverages | main.py:203-206 | One average per totalled subject. Each average times its count equals the total. |
| ClassStats.SubjectAverageInRange | main.py:198-206 | For valid students, a taken subject has count at least 1 and its class average lies in [0, 100]. |
| ClassStats.ClassAveragesInRange | main.py:195-206 | From the loops' dictionaries, no division is by zero and every class average lies in [0, 100]. |

## Left out

- Loading and saving the JSON file (utils.py) is I/O and is not modelled. The list is loaded through the constructor, and saving after each change is not represented. The serialise/deserialise round trip of a record is not modelled for the same reason.
- Streamlit widgets, session state, reruns, and the pandas and altair charts are not modelled. The values read from widgets (form rows, search text, class filter, selected name, edited fields) are parameters.
- The edit form's subjects loop (main.py:144-147) only reads widget values. `Update` takes the resulting dictionary as a parameter.
- Widget bounds (age 1-100, class 1-12, marks 0-100 in the number inputs) are not assumed. The model accepts any integers there, as the record itself does.
- Validation of the name is not modelled: the record does not check that it is non-empty, so neither does the model.
- pydantic's type coercion of field values is not modelled; fields are already typed.
- Floating point is not modelled. Averages are exact reals, so values within rounding of a grade boundary may grade differently than in floating point.
- Text.Lower: folds only ASCII letters; Python's full Unicode case mapping is not modelled.
- ClassStats.SubjectTotals: the totals and counts are order-free maps. The insertion order of the source's dictionaries only affects the chart's bar order.
- Roster.StudentList.Update and Roster.StudentList.Delete: when the selected student is not in the list, the source's `list.index`/`list.remove` raise an uncaught `ValueError`. The model reports `NotInList`/`None` and leaves the list unchanged instead.
- Roster.StudentList.Add: the success and error messages written to the page are not modelled, beyond `Message` for the validation text.
- Concurrency between sessions is not modelled; each interaction is one sequential step.
