/**
 * Python dictionaries from string keys to integers, as the program uses them
 * for a student's subjects. A dictionary is an association list in insertion
 * order whose keys are pairwise distinct: iterating a Python dict yields its
 * entries in that order, and assigning to an existing key keeps its position.
 */
module Dicts {
  import opened Wrappers

  type Entry = (string, int)

  /** Every key occurs at most once. */
  predicate DistinctKeys(d: seq<Entry>) {
    forall i, j :: 0 <= i < j < |d| ==> d[i].0 != d[j].0
  }

  type Dict = d: seq<Entry> | DistinctKeys(d) witness []

  /** The set of keys, `d.keys()`. */
  function Keys(d: seq<Entry>): set<string> {
    if d == [] then {} else Keys(d[..|d| - 1]) + {d[|d| - 1].0}
  }

  /** A key is in `d.keys()` exactly when some entry carries it. */
  lemma {:induction false} KeysIff(d: seq<Entry>, k: string)
    ensures k in Keys(d) <==> exists i :: 0 <= i < |d| && d[i].0 == k
  {
    if d != [] {
      var p := d[..|d| - 1];
      assert forall i :: 0 <= i < |p| ==> p[i] == d[i];
      KeysIff(p, k);
    }
  }

  /** `d.get(k)`: the value stored under `k`, if any. */
  function Get(d: seq<Entry>, k: string): (r: Option<int>)
    ensures r.Some? <==> k in Keys(d)
    ensures r.Some? ==> (k, r.value) in d
  {
    if d == [] then None
    else if d[|d| - 1].0 == k then Some(d[|d| - 1].1)
    else Get(d[..|d| - 1], k)
  }

  /** The value under `k`, or 0 when there is none: `d.get(k, 0)`. */
  function GetOrZero(d: seq<Entry>, k: string): int {
    match Get(d, k)
    case Some(v) => v
    case None => 0
  }

  /** In a dictionary, the entry at position `i` is what `Get` finds for its key. */
  lemma {:induction false} GetAt(d: Dict, i: nat)
    requires i < |d|
    ensures Get(d, d[i].0) == Some(d[i].1)
  {
    if i < |d| - 1 {
      var p: Dict := d[..|d| - 1];
      assert p[i] == d[i];
      GetAt(p, i);
    }
  }

  /** In a dictionary, `Get` finds `v` under `k` exactly when the entry `(k, v)` is present. */
  lemma GetIff(d: Dict, k: string, v: int)
    ensures Get(d, k) == Some(v) <==> (k, v) in d
  {
    if (k, v) in d {
      var i :| 0 <= i < |d| && d[i] == (k, v);
      GetAt(d, i);
    }
  }

  /** The position of key `k`. */
  function KeyIndex(d: seq<Entry>, k: string): (i: nat)
    requires k in Keys(d)
    ensures i < |d| && d[i].0 == k
  {
    if d[|d| - 1].0 == k then |d| - 1 else KeyIndex(d[..|d| - 1], k)
  }

  /** Overwriting the value at the position of an existing key changes nothing else. */
  lemma PutInPlace(d: Dict, k: string, v: int, i: nat)
    requires i < |d| && d[i].0 == k
    ensures DistinctKeys(d[i := (k, v)])
    ensures Keys(d[i := (k, v)]) == Keys(d)
    ensures Get(d[i := (k, v)], k) == Some(v)
    ensures forall j :: j != k ==> Get(d[i := (k, v)], j) == Get(d, j)
  {
    var s := d[i := (k, v)];
    assert forall n :: 0 <= n < |d| ==> s[n].0 == d[n].0;
    assert DistinctKeys(s);
    var r: Dict := s;
    assert Keys(r) == Keys(d) by {
      forall j ensures j in Keys(r) <==> j in Keys(d) {
        KeysIff(r, j);
        KeysIff(d, j);
        if j in Keys(d) {
          var n :| 0 <= n < |d| && d[n].0 == j;
          assert r[n].0 == j;
        }
        if j in Keys(r) {
          var n :| 0 <= n < |r| && r[n].0 == j;
          assert d[n].0 == j;
        }
      }
    }
    GetAt(r, i);
    forall j | j != k ensures Get(r, j) == Get(d, j) {
      if Get(d, j).Some? {
        var w := Get(d, j).value;
        GetIff(d, j, w);
        assert (j, w) in r by {
          var n :| 0 <= n < |d| && d[n] == (j, w);
          assert r[n] == (j, w);
        }
        GetIff(r, j, w);
      }
    }
  }

  /** `d[k] = v`: an existing key keeps its position and gets the new value; a new key is appended. */
  function Put(d: Dict, k: string, v: int): (r: Dict)
    ensures Keys(r) == Keys(d) + {k}
    ensures Get(r, k) == Some(v)
    ensures forall j :: j != k ==> Get(r, j) == Get(d, j)
    ensures k !in Keys(d) ==> r == d + [(k, v)]
    ensures k in Keys(d) ==> |r| == |d| && forall i :: 0 <= i < |d| ==> r[i].0 == d[i].0
  {
    if k in Keys(d) then
      var i := KeyIndex(d, k);
      PutInPlace(d, k, v, i);
      d[i := (k, v)]
    else
      KeysIff(d, k);
      assert DistinctKeys(d + [(k, v)]);
      assert (d + [(k, v)])[..|d|] == d;
      d + [(k, v)]
  }

  /** The map a dictionary denotes; two Python dicts are equal when these maps are. */
  function ToMap(d: seq<Entry>): (m: map<string, int>)
    ensures m.Keys == Keys(d)
    ensures forall k :: k in m ==> Get(d, k) == Some(m[k])
  {
    if d == [] then map[]
    else ToMap(d[..|d| - 1])[d[|d| - 1].0 := d[|d| - 1].1]
  }

  /** Every key looks up the same in both dictionaries. */
  ghost predicate SameLookups(d: seq<Entry>, e: seq<Entry>) {
    forall k :: Get(d, k) == Get(e, k)
  }

  /** Two dictionaries compare equal in Python exactly when every key looks up the same in both. */
  lemma SameEntries(d: seq<Entry>, e: seq<Entry>)
    ensures ToMap(d) == ToMap(e) <==> SameLookups(d, e)
  {
    if ToMap(d) == ToMap(e) {
      SameMapSameLookups(d, e);
    } else if SameLookups(d, e) {
      SameLookupsSameMap(d, e);
    }
  }

  /** Equal order-free views give the same lookups. */
  lemma SameMapSameLookups(d: seq<Entry>, e: seq<Entry>)
    requires ToMap(d) == ToMap(e)
    ensures SameLookups(d, e)
  {
    forall k ensures Get(d, k) == Get(e, k) {
      if k in ToMap(d) {
        assert Get(d, k) == Some(ToMap(d)[k]);
      }
    }
  }

  /** The order-free view is determined by the lookups. */
  lemma SameLookupsSameMap(d: seq<Entry>, e: seq<Entry>)
    requires SameLookups(d, e)
    ensures ToMap(d) == ToMap(e)
  {
    var md, me := ToMap(d), ToMap(e);
    forall k ensures k in md <==> k in me {
      assert Get(d, k) == Get(e, k);
    }
    forall k | k in md ensures md[k] == me[k] {
      assert Get(d, k) == Get(e, k);
    }
  }

  /** The sum of the values, `sum(d.values())`. */
  function SumValues(d: seq<Entry>): int {
    if d == [] then 0 else SumValues(d[..|d| - 1]) + d[|d| - 1].1
  }

  /** When every value lies in [lo, hi], the sum of `n` values lies in [n * lo, n * hi]. */
  lemma {:induction false} SumValuesBounds(d: seq<Entry>, lo: int, hi: int)
    requires forall i :: 0 <= i < |d| ==> lo <= d[i].1 <= hi
    ensures |d| * lo <= SumValues(d) <= |d| * hi
  {
    if d != [] {
      var p := d[..|d| - 1];
      assert forall i :: 0 <= i < |p| ==> p[i] == d[i];
      SumValuesBounds(p, lo, hi);
      assert |d| * lo == |p| * lo + lo;
      assert |d| * hi == |p| * hi + hi;
    }
  }
}
