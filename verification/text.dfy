/**
 The string operations the script relies on, with Python's meaning:
 `str.lower()` (restricted to ASCII), `str.startswith`, `str.endswith`,
 the substring test `p in s`, and `str.replace(p, "")`.
 */
module Text {

  /** True when `c` is an ASCII upper-case letter. */
  predicate IsUpper(c: char) {
    'A' <= c <= 'Z'
  }

  function LowerChar(c: char): char {
    if IsUpper(c) then (c as int + 32) as char else c
  }

  /** `s.lower()` for ASCII text; every other character is kept as it is. */
  function Lower(s: string): (r: string)
    ensures |r| == |s|
    ensures forall i :: 0 <= i < |s| ==> r[i] == LowerChar(s[i])
    ensures forall i :: 0 <= i < |r| ==> !IsUpper(r[i])
  {
    seq(|s|, i requires 0 <= i < |s| => LowerChar(s[i]))
  }

  /** Lower-casing twice is lower-casing once. */
  lemma LowerIdempotent(s: string)
    ensures Lower(Lower(s)) == Lower(s)
  {
  }

  predicate StartsWith(s: string, p: string) {
    |p| <= |s| && s[..|p|] == p
  }

  predicate EndsWith(s: string, p: string) {
    |p| <= |s| && s[|s| - |p|..] == p
  }

  /** `p` occurs in `s` starting at index `i`. */
  ghost predicate OccursAt(s: string, p: string, i: int) {
    0 <= i && i + |p| <= |s| && s[i..i + |p|] == p
  }

  /** Python's `p in s`: some index of `s` starts an occurrence of `p`. */
  function Contains(s: string, p: string): (r: bool)
    ensures r <==> exists i :: OccursAt(s, p, i)
    decreases |s|
  {
    if StartsWith(s, p) then
      assert OccursAt(s, p, 0);
      true
    else if |s| <= |p| then
      false
    else
      var r := Contains(s[1..], p);
      OccursShift(s, p);
      r
  }

  /** The occurrences in `s` past index 0 are those of its tail, shifted by one. */
  lemma OccursShift(s: string, p: string)
    requires |s| > 0
    ensures forall i :: 1 <= i ==> (OccursAt(s, p, i) <==> OccursAt(s[1..], p, i - 1))
    ensures (exists j :: OccursAt(s[1..], p, j)) ==> exists i :: OccursAt(s, p, i)
  {
    forall i | 1 <= i
      ensures OccursAt(s, p, i) <==> OccursAt(s[1..], p, i - 1)
    {
      if i + |p| <= |s| {
        assert s[1..][i - 1..i - 1 + |p|] == s[i..i + |p|];
      }
    }
    if exists j :: OccursAt(s[1..], p, j) {
      var j :| OccursAt(s[1..], p, j);
      assert OccursAt(s, p, j + 1);
    }
  }

  /** Away from an occurrence at its first index, `s` contains `p` iff its tail does. */
  lemma {:induction false} ContainsTail(s: string, p: string)
    requires |s| > 0 && !StartsWith(s, p)
    ensures Contains(s, p) <==> Contains(s[1..], p)
  {
    if Contains(s[1..], p) {
      var j :| OccursAt(s[1..], p, j);
      assert s[1..][j..j + |p|] == s[j + 1..j + 1 + |p|];
      assert OccursAt(s, p, j + 1);
    }
    if Contains(s, p) {
      var i :| OccursAt(s, p, i);
      assert i != 0;
      assert s[1..][i - 1..i - 1 + |p|] == s[i..i + |p|];
      assert OccursAt(s[1..], p, i - 1);
    }
  }

  /**
   Python's `s.replace(p, "")`: scan from the left, delete each occurrence of
   `p` and resume the scan just after it. Text that the deletion brings
   together is not scanned again.
   */
  function ReplaceAll(s: string, p: string): (r: string)
    requires |p| > 0
    ensures |r| <= |s|
    ensures !Contains(s, p) ==> r == s
    ensures Contains(s, p) ==> |r| < |s|
    decreases |s|
  {
    if |s| == 0 then
      []
    else if StartsWith(s, p) then
      assert OccursAt(s, p, 0);
      ReplaceAll(s[|p|..], p)
    else
      ContainsTail(s, p);
      [s[0]] + ReplaceAll(s[1..], p)
  }
  /** A pattern holding a character that `s` lacks cannot occur in `s`. */
  lemma {:induction false} MissingCharNotContained(s: string, p: string, j: int)
    requires 0 <= j < |p| && p[j] !in s
    ensures !Contains(s, p)
  {
  }
}
