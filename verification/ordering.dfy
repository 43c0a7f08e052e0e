/**
 Python's string order and the stable sort by name
 used to print each category's entries.
 */
module Ordering {
  import opened Records

  /**
   Python's `a < b` on `str`: the first differing character decides by code
   point, and a proper prefix comes first.
   */
  function Less(a: string, b: string): bool
    decreases |a|
  {
    if |b| == 0 then false
    else if |a| == 0 then true
    else if a[0] != b[0] then a[0] < b[0]
    else Less(a[1..], b[1..])
  }

  lemma {:induction false} LessIrreflexive(a: string)
    ensures !Less(a, a)
    decreases |a|
  {
    if |a| > 0 {
      LessIrreflexive(a[1..]);
    }
  }

  /** Any two strings compare one way, the other way, or are equal. */
  lemma {:induction false} LessTotal(a: string, b: string)
    ensures Less(a, b) || a == b || Less(b, a)
    decreases |a|
  {
    if |a| > 0 && |b| > 0 && a[0] == b[0] {
      LessTotal(a[1..], b[1..]);
      if a[1..] == b[1..] {
        assert a == [a[0]] + a[1..] && b == [b[0]] + b[1..];
      }
    }
  }

  lemma {:induction false} LessTransitive(a: string, b: string, c: string)
    requires Less(a, b) && Less(b, c)
    ensures Less(a, c)
    decreases |a|
  {
    if |a| > 0 && a[0] == b[0] && b[0] == c[0] {
      LessTransitive(a[1..], b[1..], c[1..]);
    }
  }

  lemma LessAsymmetric(a: string, b: string)
    requires Less(a, b)
    ensures !Less(b, a)
  {
    if Less(b, a) {
      LessTransitive(a, b, a);
      LessIrreflexive(a);
    }
  }

  /** No entry's name is smaller than an earlier entry's. */
  ghost predicate SortedByName(s: seq<Entry>) {
    forall i, j :: 0 <= i < j < |s| ==> !Less(s[j].name, s[i].name)
  }

  /** The entries named `k`, in order: what a stable sort must keep in place. */
  function Named(s: seq<Entry>, k: string): seq<Entry> {
    if |s| == 0 then []
    else (if s[0].name == k then [s[0]] else []) + Named(s[1..], k)
  }

  lemma {:induction false} NamedConcat(a: seq<Entry>, b: seq<Entry>, k: string)
    ensures Named(a + b, k) == Named(a, k) + Named(b, k)
    decreases |a|
  {
    if |a| == 0 {
      assert a + b == b;
    } else {
      var head := if a[0].name == k then [a[0]] else [];
      assert (a + b)[0] == a[0];
      assert (a + b)[1..] == a[1..] + b;
      assert Named(a + b, k) == head + Named(a[1..] + b, k);
      NamedConcat(a[1..], b, k);
      assert Named(a, k) == head + Named(a[1..], k);
    }
  }

  /** Appending one entry appends it to the entries of its own name only. */
  lemma NamedAppend(s: seq<Entry>, e: Entry)
    ensures forall k :: Named(s + [e], k) == if k == e.name then Named(s, k) + [e] else Named(s, k)
  {
    forall k
      ensures Named(s + [e], k) == if k == e.name then Named(s, k) + [e] else Named(s, k)
    {
      NamedConcat(s, [e], k);
      assert [e][1..] == [];
      assert Named([e], k) == (if e.name == k then [e] else []) + Named([], k);
    }
  }

  /** A sorted sequence whose first name is above `k` holds nothing named `k`. */
  lemma {:induction false} NamedAbsentAbove(s: seq<Entry>, k: string)
    requires SortedByName(s) && |s| > 0 && Less(k, s[0].name)
    ensures Named(s, k) == []
    decreases |s|
  {
    LessIrreflexive(k);
    if |s| > 1 {
      assert !Less(s[1].name, s[0].name);
      LessTotal(s[0].name, s[1].name);
      if s[0].name != s[1].name {
        LessTransitive(k, s[0].name, s[1].name);
      }
      NamedAbsentAbove(s[1..], k);
    }
  }

  lemma SortedTail(s: seq<Entry>)
    requires SortedByName(s) && |s| > 0
    ensures SortedByName(s[1..])
  {
    forall i, j | 0 <= i < j < |s[1..]|
      ensures !Less(s[1..][j].name, s[1..][i].name)
    {
      assert s[1..][i] == s[i + 1] && s[1..][j] == s[j + 1];
    }
  }

  /** Prepending an entry no name of `t` is below keeps `t` sorted. */
  lemma ConsSorted(x: Entry, t: seq<Entry>)
    requires SortedByName(t)
    requires forall i :: 0 <= i < |t| ==> !Less(t[i].name, x.name)
    ensures SortedByName([x] + t)
  {
    var r := [x] + t;
    forall i, j | 0 <= i < j < |r|
      ensures !Less(r[j].name, r[i].name)
    {
      if i > 0 {
        assert r[i] == t[i - 1] && r[j] == t[j - 1];
      } else {
        assert r[j] == t[j - 1];
      }
    }
  }

  /** Every name of a sorted `s` is at or above its first name. */
  lemma SortedAboveHead(s: seq<Entry>, i: int)
    requires SortedByName(s) && 0 < i < |s|
    ensures s[0].name == s[i].name || Less(s[0].name, s[i].name)
  {
    LessTotal(s[0].name, s[i].name);
  }

  /** The step of `Insert` that places `e` in front of a sorted `s` whose first name is above it. */
  lemma InsertInFront(e: Entry, s: seq<Entry>)
    requires SortedByName(s) && |s| > 0 && Less(e.name, s[0].name)
    ensures SortedByName([e] + s)
    ensures forall k :: Named([e] + s, k) == if k == e.name then Named(s, k) + [e] else Named(s, k)
  {
    forall i | 0 <= i < |s|
      ensures !Less(s[i].name, e.name)
    {
      if i > 0 {
        SortedAboveHead(s, i);
        if s[0].name != s[i].name {
          LessTransitive(e.name, s[0].name, s[i].name);
        }
      }
      LessAsymmetric(e.name, s[i].name);
    }
    ConsSorted(e, s);
    NamedAbsentAbove(s, e.name);
    assert ([e] + s)[1..] == s;
  }

  /** The step of `Insert` that keeps the first entry of `s` in front of the insertion into the rest. */
  lemma InsertBehind(e: Entry, s: seq<Entry>, t: seq<Entry>)
    requires SortedByName(s) && |s| > 0 && !Less(e.name, s[0].name)
    requires SortedByName(t)
    requires multiset(t) == multiset(s[1..]) + multiset{e}
    ensures SortedByName([s[0]] + t)
  {
    forall i | 0 <= i < |t|
      ensures !Less(t[i].name, s[0].name)
    {
      assert t[i] in multiset(t);
      if t[i] != e {
        assert t[i] in multiset(s[1..]);
        var j :| 0 <= j < |s[1..]| && s[1..][j] == t[i];
        assert s[j + 1] == t[i];
      }
    }
    ConsSorted(s[0], t);
  }

  /** Keeping the first entry in front preserves what `Insert` promises of each name. */
  lemma NamedBehind(e: Entry, s: seq<Entry>, t: seq<Entry>)
    requires |s| > 0
    requires forall k :: Named(t, k) == if k == e.name then Named(s[1..], k) + [e] else Named(s[1..], k)
    ensures forall k :: Named([s[0]] + t, k) == if k == e.name then Named(s, k) + [e] else Named(s, k)
  {
    assert s == [s[0]] + s[1..];
    forall k
      ensures Named([s[0]] + t, k) == if k == e.name then Named(s, k) + [e] else Named(s, k)
    {
      NamedBehindAt(e, s[0], s[1..], t, k);
    }
  }

  /** `NamedBehind` for the one name `k`. */
  lemma NamedBehindAt(e: Entry, x: Entry, rest: seq<Entry>, t: seq<Entry>, k: string)
    requires Named(t, k) == if k == e.name then Named(rest, k) + [e] else Named(rest, k)
    ensures Named([x] + t, k) == if k == e.name then Named([x] + rest, k) + [e] else Named([x] + rest, k)
  {
    var head := if x.name == k then [x] else [];
    NamedCons(x, t, k);
    NamedCons(x, rest, k);
    if k == e.name {
      assert head + (Named(rest, k) + [e]) == (head + Named(rest, k)) + [e];
    }
  }

  lemma NamedCons(x: Entry, t: seq<Entry>, k: string)
    ensures Named([x] + t, k) == (if x.name == k then [x] else []) + Named(t, k)
  {
    assert ([x] + t)[1..] == t;
  }

  /** Insert `e` after every entry whose name is not above its own. */
  function Insert(e: Entry, s: seq<Entry>): (r: seq<Entry>)
    requires SortedByName(s)
    ensures SortedByName(r)
    ensures multiset(r) == multiset(s) + multiset{e}
    ensures forall k :: Named(r, k) == if k == e.name then Named(s, k) + [e] else Named(s, k)
  {
    if |s| == 0 then
      [e]
    else if Less(e.name, s[0].name) then
      InsertInFront(e, s);
      [e] + s
    else
      SortedTail(s);
      var t := Insert(e, s[1..]);
      assert s == [s[0]] + s[1..];
      assert multiset([s[0]] + t) == multiset{s[0]} + multiset(t);
      InsertBehind(e, s, t);
      NamedBehind(e, s, t);
      [s[0]] + t
  }

  /**
   Python's stable sort of entries by name, as an insertion sort. The result is
   ordered by name, holds the same entries as the input, and keeps the
   entries of each name in their input order.
   */
  function SortByName(s: seq<Entry>): (r: seq<Entry>)
    ensures SortedByName(r)
    ensures |r| == |s| && forall e :: e in r <==> e in s
    ensures forall k :: Named(r, k) == Named(s, k)
    decreases |s|
  {
    if |s| == 0 then []
    else
      var init := s[..|s| - 1];
      var last := s[|s| - 1];
      var sorted := SortByName(init);
      InsertAddsOne(last, sorted);
      AppendLast(s);
      NamedAppend(init, last);
      Insert(last, sorted)
  }

  /** `Insert` adds exactly the one entry. */
  lemma InsertAddsOne(e: Entry, s: seq<Entry>)
    requires SortedByName(s)
    ensures |Insert(e, s)| == |s| + 1
    ensures forall x :: x in Insert(e, s) <==> x in s || x == e
  {
    var r := Insert(e, s);
    assert |multiset(r)| == |multiset(s)| + 1;
    forall x
      ensures x in r <==> x in s || x == e
    {
      assert x in r <==> x in multiset(r);
      assert x in s <==> x in multiset(s);
    }
  }

  /** A non-empty sequence is its front followed by its last element. */
  lemma AppendLast(s: seq<Entry>)
    requires |s| > 0
    ensures s == s[..|s| - 1] + [s[|s| - 1]]
    ensures forall x :: x in s <==> x in s[..|s| - 1] || x == s[|s| - 1]
  {
    assert s == s[..|s| - 1] + [s[|s| - 1]];
  }

  /** The sort is a permutation of its input. */
  lemma {:induction false} SortByNamePermutes(s: seq<Entry>)
    ensures multiset(SortByName(s)) == multiset(s)
    decreases |s|
  {
    if |s| > 0 {
      var init := s[..|s| - 1];
      var last := s[|s| - 1];
      SortByNamePermutes(init);
      assert SortByName(s) == Insert(last, SortByName(init));
      AppendLast(s);
      assert multiset(s) == multiset(init) + multiset{last};
    }
  }
}
