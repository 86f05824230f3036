/** The registration form's subject rows and how they become a subjects dictionary. */
module Registration {
  import opened Wrappers
  import opened Dicts
  import opened StudentModel

  /** One row of the form: a subject name (possibly left empty) and its mark. */
  datatype SubjectRow = SubjectRow(name: string, marks: int)

  /** The mark of the last row named `k`, if any row has that name. */
  function LastEntered(rows: seq<SubjectRow>, k: string): (r: Option<int>)
    ensures r.Some? <==> exists i :: 0 <= i < |rows| && rows[i].name == k
  {
    if rows == [] then None
    else if rows[|rows| - 1].name == k then Some(rows[|rows| - 1].marks)
    else
      assert forall i :: 0 <= i < |rows| - 1 ==> rows[..|rows| - 1][i] == rows[i];
      LastEntered(rows[..|rows| - 1], k)
  }

  /** Row `i` is `(k, m)` and no later row is named `k`. */
  predicate IsLastRow(rows: seq<SubjectRow>, k: string, m: int, i: int) {
    0 <= i < |rows| && rows[i] == SubjectRow(k, m) && forall j :: i < j < |rows| ==> rows[j].name != k
  }

  /** `LastEntered` finds `m` exactly when some row is `(k, m)` and no later row is named `k`. */
  lemma {:induction false} LastEnteredIff(rows: seq<SubjectRow>, k: string, m: int)
    ensures LastEntered(rows, k) == Some(m) <==> exists i :: IsLastRow(rows, k, m, i)
  {
    if rows != [] {
      var n := |rows| - 1;
      var p := rows[..n];
      if rows[n].name == k {
        if rows[n].marks == m {
          assert IsLastRow(rows, k, m, n);
        }
        forall i | IsLastRow(rows, k, m, i) ensures i == n {}
      } else {
        LastEnteredIff(p, k, m);
        forall i | IsLastRow(p, k, m, i) ensures IsLastRow(rows, k, m, i) {
          assert rows[i] == p[i];
          assert forall j :: i < j < n ==> rows[j] == p[j];
        }
        forall i | IsLastRow(rows, k, m, i) ensures IsLastRow(p, k, m, i) {
          assert i < n;
          assert forall j :: i < j < n ==> rows[j] == p[j];
        }
      }
    }
  }

  /** The dictionary the form loop has built after visiting `rows`. */
  function Collected(rows: seq<SubjectRow>): Dict {
    if rows == [] then []
    else
      var before := Collected(rows[..|rows| - 1]);
      var row := rows[|rows| - 1];
      if row.name != "" then Put(before, row.name, row.marks) else before
  }

  /** What the built dictionary holds: no empty name, at most one entry per row, the last mark per name. */
  lemma {:induction false} CollectedMeaning(rows: seq<SubjectRow>)
    ensures "" !in Keys(Collected(rows))
    ensures |Collected(rows)| <= |rows|
    ensures forall k :: k != "" ==> Get(Collected(rows), k) == LastEntered(rows, k)
  {
    if rows != [] {
      var p := rows[..|rows| - 1];
      CollectedMeaning(p);
      assert forall i :: 0 <= i < |p| ==> p[i] == rows[i];
    }
  }

  /** The names in the built dictionary are exactly the non-empty names entered. */
  lemma CollectedKeys(rows: seq<SubjectRow>)
    ensures forall k :: k in Keys(Collected(rows)) <==> k != "" && exists i :: 0 <= i < |rows| && rows[i].name == k
  {
    CollectedMeaning(rows);
    forall k | k != "" ensures k in Keys(Collected(rows)) <==> LastEntered(rows, k).Some? {
      assert Get(Collected(rows), k) == LastEntered(rows, k);
    }
  }

  /** The position of the first row named `k`, or `|rows|` when no row has that name. */
  function FirstRow(rows: seq<SubjectRow>, k: string): (r: nat)
    ensures r <= |rows|
    ensures r < |rows| ==> rows[r].name == k
    ensures forall j :: 0 <= j < r ==> rows[j].name != k
  {
    if rows == [] then 0
    else
      var n := |rows| - 1;
      var f := FirstRow(rows[..n], k);
      assert forall j :: 0 <= j < n ==> rows[..n][j] == rows[j];
      if f < n then f else if rows[n].name == k then n else |rows|
  }

  /** Every key of `d` is entered in `rows`, and the keys come in the order of their first rows. */
  predicate InFirstRowOrder(d: seq<Entry>, rows: seq<SubjectRow>) {
    && (forall a :: 0 <= a < |d| ==> FirstRow(rows, d[a].0) < |rows|)
    && (forall a, b :: 0 <= a < b < |d| ==> FirstRow(rows, d[a].0) < FirstRow(rows, d[b].0))
  }

  /**
   * The built dictionary lists each name where its first row stands: assigning
   * a repeated name overwrites the entry in place, so entries are in the order
   * of the names' first rows.
   */
  lemma {:induction false} CollectedInFirstRowOrder(rows: seq<SubjectRow>)
    ensures InFirstRowOrder(Collected(rows), rows)
  {
    if rows != [] {
      var n := |rows| - 1;
      var p := rows[..n];
      var before := Collected(p);
      var row := rows[n];
      CollectedInFirstRowOrder(p);
      if row.name != "" && row.name !in Keys(before) {
        NewNameFirstRow(rows);
        OrderAppended(rows, before, row.name, row.marks);
      } else {
        OrderKept(rows, before, Collected(rows));
      }
    }
  }

  /** The first row of a name already met before the last row is unchanged by that row. */
  lemma FirstRowPrefix(rows: seq<SubjectRow>, k: string)
    requires rows != [] && FirstRow(rows[..|rows| - 1], k) < |rows| - 1
    ensures FirstRow(rows, k) == FirstRow(rows[..|rows| - 1], k)
  {
  }

  /** Keeping the keys where they stand keeps the first-row order when one more row is read. */
  lemma OrderKept(rows: seq<SubjectRow>, before: seq<Entry>, c: seq<Entry>)
    requires rows != [] && InFirstRowOrder(before, rows[..|rows| - 1])
    requires |c| == |before| && forall a :: 0 <= a < |c| ==> c[a].0 == before[a].0
    ensures InFirstRowOrder(c, rows)
  {
    forall a | 0 <= a < |c| ensures FirstRow(rows, c[a].0) == FirstRow(rows[..|rows| - 1], before[a].0) {
      FirstRowPrefix(rows, before[a].0);
    }
  }

  /** Appending the last row's new name keeps the first-row order. */
  lemma OrderAppended(rows: seq<SubjectRow>, before: seq<Entry>, k: string, v: int)
    requires rows != [] && InFirstRowOrder(before, rows[..|rows| - 1])
    requires FirstRow(rows, k) == |rows| - 1
    ensures InFirstRowOrder(before + [(k, v)], rows)
  {
    var c := before + [(k, v)];
    forall a | 0 <= a < |before| ensures FirstRow(rows, c[a].0) == FirstRow(rows[..|rows| - 1], before[a].0) < |rows| - 1 {
      assert c[a] == before[a];
      FirstRowPrefix(rows, before[a].0);
    }
  }

  /** A non-empty name met for the first time in the last row has that row as its first row. */
  lemma NewNameFirstRow(rows: seq<SubjectRow>)
    requires rows != []
    requires rows[|rows| - 1].name != "" && rows[|rows| - 1].name !in Keys(Collected(rows[..|rows| - 1]))
    ensures FirstRow(rows, rows[|rows| - 1].name) == |rows| - 1
  {
    var n := |rows| - 1;
    var p := rows[..n];
    var k := rows[n].name;
    CollectedMeaning(p);
    assert Get(Collected(p), k) == LastEntered(p, k);
    assert FirstRow(p, k) == n;
  }

  /** Rows ("b", 101) and ("a", 200) give the dictionary in that order, so validation names "b". */
  lemma FirstOffenderFollowsEntryOrder()
    ensures Collected([SubjectRow("b", 101), SubjectRow("a", 200)]) == [("b", 101), ("a", 200)]
    ensures ValidateSubjects(Collected([SubjectRow("b", 101), SubjectRow("a", 200)])) == Failure(MarksOutOfRange("b"))
  {
    var rows := [SubjectRow("b", 101), SubjectRow("a", 200)];
    assert rows[..1] == [SubjectRow("b", 101)];
    assert rows[..1][..0] == [];
    assert Collected(rows[..1]) == [("b", 101)];
    assert "a" !in Keys([("b", 101)]);
  }

  /**
   * Fills the subjects dictionary from the form rows: a row with an empty name
   * is skipped, and a repeated name keeps the mark of its last row.
   */
  method CollectSubjects(rows: seq<SubjectRow>) returns (subjects: Dict)
    ensures subjects == Collected(rows)
    ensures forall k :: k in Keys(subjects) <==> k != "" && exists i :: 0 <= i < |rows| && rows[i].name == k
    ensures forall k :: k != "" ==> Get(subjects, k) == LastEntered(rows, k)
    ensures |subjects| <= |rows|
  {
    subjects := [];
    var i := 0;
    while i < |rows|
      invariant 0 <= i <= |rows|
      invariant subjects == Collected(rows[..i])
    {
      var row := rows[i];
      assert rows[..i + 1][..i] == rows[..i];
      if row.name != "" {
        subjects := Put(subjects, row.name, row.marks);
      }
      i := i + 1;
    }
    assert rows[..i] == rows;
    CollectedMeaning(rows);
    CollectedKeys(rows);
  }
}
