/** The string operations the name search uses: lower-casing and substring containment. */
module Text {

  /** Lower-casing of one character; only the ASCII letters A-Z are mapped. */
  function LowerChar(c: char): char {
    if 'A' <= c <= 'Z' then (c as int + 32) as char else c
  }

  /** `s.lower()`, character by character. */
  function Lower(s: string): (r: string)
    ensures |r| == |s|
  {
    seq(|s|, i requires 0 <= i < |s| => LowerChar(s[i]))
  }

  /** Lower-casing twice is lower-casing once. */
  lemma LowerIdempotent(s: string)
    ensures Lower(Lower(s)) == Lower(s)
  {
    forall i | 0 <= i < |s| ensures Lower(Lower(s))[i] == Lower(s)[i] {
      assert !('A' <= Lower(s)[i] <= 'Z');
    }
  }

  /** `p` occurs at the start of `t`. */
  predicate IsPrefix(p: string, t: string) {
    |p| <= |t| && t[..|p|] == p
  }

  /** `p in t` for Python strings. */
  predicate IsSubstring(p: string, t: string) {
    IsPrefix(p, t) || (|t| > 0 && IsSubstring(p, t[1..]))
  }

  /** `p` occurs in `t` starting at offset `i`. */
  predicate OccursAt(p: string, t: string, i: nat) {
    i + |p| <= |t| && t[i..i + |p|] == p
  }

  /** `p in t` holds exactly when `p` occurs in `t` at some offset. */
  lemma {:induction false} SubstringIff(p: string, t: string)
    ensures IsSubstring(p, t) <==> exists i: nat :: OccursAt(p, t, i)
  {
    if IsPrefix(p, t) {
      assert OccursAt(p, t, 0);
    } else if |t| > 0 {
      SubstringIff(p, t[1..]);
      if exists i: nat :: OccursAt(p, t, i) {
        var i: nat :| OccursAt(p, t, i);
        assert i != 0;
        assert t[1..][i - 1..i - 1 + |p|] == t[i..i + |p|];
        assert OccursAt(p, t[1..], i - 1);
      }
      if IsSubstring(p, t[1..]) {
        var i: nat :| OccursAt(p, t[1..], i);
        assert t[1..][i..i + |p|] == t[i + 1..i + 1 + |p|];
        assert OccursAt(p, t, i + 1);
      }
    }
  }

  /** The empty string occurs in every string. */
  lemma EmptyIsSubstring(t: string)
    ensures IsSubstring("", t)
  {
    assert IsPrefix("", t);
  }
}
