/**
 The body of `main`: admit each record that is neither a system application
 nor filtered out, bucket it by category, and render the buckets in
 ascending category order, each one's entries stably sorted by name.
 */
module Report {
  import opened Text
  import opened Records
  import opened Classifier
  import opened Inclusion
  import opened Ordering

  /** One printed category block: its name and its entries in print order. */
  datatype Section = Section(category: string, entries: seq<Entry>)

  /** The admission test of the main loop. */
  predicate Admitted(system: set<string>, app: AppRecord) {
    app.name !in system && ShouldInclude(app)
  }

  /** The entry the main loop stores for an admitted record. */
  function ToEntry(app: AppRecord): Entry {
    Entry(app.name, app.version, FormatSource(app.source))
  }

  function CategoryOf(app: AppRecord): string {
    Category(app.name, app.path)
  }

  /**
   What bucket `c` must hold: the entries of the admitted records classified
   `c`, in input order.
   */
  function Placed(system: set<string>, records: seq<AppRecord>, c: string): seq<Entry> {
    if |records| == 0 then []
    else
      var app := records[|records| - 1];
      Placed(system, records[..|records| - 1], c) +
        (if Admitted(system, app) && CategoryOf(app) == c then [ToEntry(app)] else [])
  }

  /** The bucket of category `c`; a category with no key reads as empty. */
  function Lookup(m: map<string, seq<Entry>>, c: string): seq<Entry> {
    if c in m then m[c] else []
  }

  /** The `defaultdict` the main loop fills, one admitted record at a time. */
  function Buckets(system: set<string>, records: seq<AppRecord>): map<string, seq<Entry>> {
    if |records| == 0 then map[]
    else
      var m := Buckets(system, records[..|records| - 1]);
      var app := records[|records| - 1];
      if Admitted(system, app) then
        var c := CategoryOf(app);
        m[c := Lookup(m, c) + [ToEntry(app)]]
      else
        m
  }

  /**
   A key exists only once something was appended to it, always under one of
   the nine categories, and each bucket holds what `Placed` describes.
   */
  lemma {:induction false} BucketsSpec(system: set<string>, records: seq<AppRecord>)
    ensures forall c :: c in Buckets(system, records) ==> c in SortedCategories && Buckets(system, records)[c] != []
    ensures forall c :: Lookup(Buckets(system, records), c) == Placed(system, records, c)
    decreases |records|
  {
    if |records| > 0 {
      BucketsSpec(system, records[..|records| - 1]);
    }
  }

  /** Every placed entry comes from an admitted record of that category. */
  lemma {:induction false} PlacedFromAdmitted(system: set<string>, records: seq<AppRecord>, c: string, e: Entry)
    requires e in Placed(system, records, c)
    ensures exists i :: 0 <= i < |records| && Admitted(system, records[i]) && CategoryOf(records[i]) == c &&
                        ToEntry(records[i]) == e
    decreases |records|
  {
    var n := |records| - 1;
    if e in Placed(system, records[..n], c) {
      PlacedFromAdmitted(system, records[..n], c, e);
      var i :| 0 <= i < n && Admitted(system, records[..n][i]) && CategoryOf(records[..n][i]) == c &&
               ToEntry(records[..n][i]) == e;
      assert records[..n][i] == records[i];
    } else {
      assert Admitted(system, records[n]) && CategoryOf(records[n]) == c && ToEntry(records[n]) == e;
    }
  }

  /** Every admitted record's entry lands in the bucket of its own category. */
  lemma {:induction false} AdmittedIsPlaced(system: set<string>, records: seq<AppRecord>, i: int)
    requires 0 <= i < |records| && Admitted(system, records[i])
    ensures ToEntry(records[i]) in Placed(system, records, CategoryOf(records[i]))
    decreases |records|
  {
    var n := |records| - 1;
    if i < n {
      assert records[..n][i] == records[i];
      AdmittedIsPlaced(system, records[..n], i);
    }
  }

  /** No placed entry names a system application or carries the "Apple" label. */
  lemma {:induction false} PlacedEntriesAdmissible(system: set<string>, records: seq<AppRecord>, c: string)
    ensures forall e :: e in Placed(system, records, c) ==> e.name !in system && e.source != "Apple"
  {
    forall e | e in Placed(system, records, c)
      ensures e.name !in system && e.source != "Apple"
    {
      PlacedFromAdmitted(system, records, c, e);
      var i :| 0 <= i < |records| && Admitted(system, records[i]) && CategoryOf(records[i]) == c &&
               ToEntry(records[i]) == e;
      FormatsAsAppleIffVendor(records[i].source);
    }
  }

  /** The number of admitted records. */
  function AdmittedCount(system: set<string>, records: seq<AppRecord>): nat {
    if |records| == 0 then 0
    else AdmittedCount(system, records[..|records| - 1]) + (if Admitted(system, records[|records| - 1]) then 1 else 0)
  }

  /** The bucket sizes of the categories `cats`, added up. */
  function PlacedTotal(system: set<string>, records: seq<AppRecord>, cats: seq<string>): nat {
    if |cats| == 0 then 0
    else |Placed(system, records, cats[0])| + PlacedTotal(system, records, cats[1..])
  }

  ghost predicate Distinct(cats: seq<string>) {
    forall i, j :: 0 <= i < j < |cats| ==> cats[i] != cats[j]
  }

  /** One more record adds one to the total exactly when it is admitted into one of `cats`. */
  lemma {:induction false} PlacedTotalStep(system: set<string>, records: seq<AppRecord>, cats: seq<string>)
    requires |records| > 0 && Distinct(cats)
    ensures var app := records[|records| - 1];
            PlacedTotal(system, records, cats) ==
              PlacedTotal(system, records[..|records| - 1], cats) +
              (if Admitted(system, app) && CategoryOf(app) in cats then 1 else 0)
    decreases |cats|
  {
    if |cats| > 0 {
      DistinctTail(cats);
      PlacedTotalStep(system, records, cats[1..]);
      PlacedStep(system, records, cats[0]);
    }
  }

  /** The tail of a duplicate-free sequence is duplicate-free and lacks the head. */
  lemma DistinctTail(cats: seq<string>)
    requires |cats| > 0 && Distinct(cats)
    ensures Distinct(cats[1..]) && cats[0] !in cats[1..]
    ensures forall c :: c in cats <==> c == cats[0] || c in cats[1..]
  {
    forall i, j | 0 <= i < j < |cats[1..]|
      ensures cats[1..][i] != cats[1..][j]
    {
      assert cats[1..][i] == cats[i + 1] && cats[1..][j] == cats[j + 1];
    }
    assert cats == [cats[0]] + cats[1..];
  }

  /** The last record grows the bucket of `c` by one exactly when it is admitted into `c`. */
  lemma PlacedStep(system: set<string>, records: seq<AppRecord>, c: string)
    requires |records| > 0
    ensures var app := records[|records| - 1];
            |Placed(system, records, c)| ==
              |Placed(system, records[..|records| - 1], c)| + (if Admitted(system, app) && CategoryOf(app) == c then 1 else 0)
  {
  }

  /**
   Every admitted record is placed in exactly one bucket: the bucket sizes
   over all nine categories add up to the number of admitted records.
   */
  lemma {:induction false} EachAdmittedRecordPlacedOnce(system: set<string>, records: seq<AppRecord>)
    ensures PlacedTotal(system, records, SortedCategories) == AdmittedCount(system, records)
    decreases |records|
  {
    if |records| == 0 {
      assert forall cats: seq<string> :: PlacedTotal(system, records, cats) == 0 by {
        forall cats: seq<string>
          ensures PlacedTotal(system, records, cats) == 0
        {
          ZeroTotal(system, records, cats);
        }
      }
    } else {
      CategoriesAscending();
      PlacedTotalStep(system, records, SortedCategories);
      EachAdmittedRecordPlacedOnce(system, records[..|records| - 1]);
    }
  }

  lemma {:induction false} ZeroTotal(system: set<string>, records: seq<AppRecord>, cats: seq<string>)
    requires |records| == 0
    ensures PlacedTotal(system, records, cats) == 0
    decreases |cats|
  {
    if |cats| > 0 {
      ZeroTotal(system, records, cats[1..]);
    }
  }

  /** Any two categories of `cats` compare in the order they are listed. */
  ghost predicate StrictlyAscending(cats: seq<string>) {
    forall i, j :: 0 <= i < j < |cats| ==> Less(cats[i], cats[j])
  }

  lemma {:induction false} AscendingFromAdjacent(cats: seq<string>)
    requires forall i :: 0 <= i < |cats| - 1 ==> Less(cats[i], cats[i + 1])
    ensures StrictlyAscending(cats)
    decreases |cats|
  {
    if |cats| > 1 {
      AscendingFromAdjacent(cats[1..]);
      forall j | 1 < j < |cats|
        ensures Less(cats[0], cats[j])
      {
        assert cats[1..][0] == cats[1] && cats[1..][j - 1] == cats[j];
        if j > 1 {
          LessTransitive(cats[0], cats[1], cats[j]);
        }
      }
    }
  }

  /**
   The nine category names are listed in Python's ascending string order, so
   walking them in turn visits the keys of any bucket map in `sorted` order.
   */
  lemma CategoriesAscending()
    ensures StrictlyAscending(SortedCategories)
    ensures Distinct(SortedCategories)
  {
    AscendingFromAdjacent(SortedCategories);
    forall i, j | 0 <= i < j < |SortedCategories|
      ensures SortedCategories[i] != SortedCategories[j]
    {
      LessIrreflexive(SortedCategories[i]);
    }
  }
  /** The entries of a bucket whose source label is not "Apple", in order. */
  function DropApple(es: seq<Entry>): (r: seq<Entry>)
    ensures forall e :: e in r <==> e in es && e.source != "Apple"
    ensures (forall e :: e in es ==> e.source != "Apple") ==> r == es
    ensures |es| == 1 && es[0].source != "Apple" ==> r == es
    ensures |es| == 1 && es[0].source == "Apple" ==> r == []
    ensures |r| <= |es|
  {
    if |es| == 0 then []
    else
      var rest := DropApple(es[1..]);
      assert es == [es[0]] + es[1..];
      (if es[0].source != "Apple" then [es[0]] else []) + rest
  }

  /**
   The filter works entry by entry: filtering a concatenation is filtering each
   part, so the kept entries stay in input order, each as often as it occurs.
   */
  lemma {:induction false} DropAppleConcat(a: seq<Entry>, b: seq<Entry>)
    ensures DropApple(a + b) == DropApple(a) + DropApple(b)
    decreases |a|
  {
    if |a| > 0 {
      var keep := if a[0].source != "Apple" then [a[0]] else [];
      assert (a + b)[0] == a[0] && (a + b)[1..] == a[1..] + b;
      DropAppleStep(a + b);
      DropAppleStep(a);
      DropAppleConcat(a[1..], b);
      assert keep + (DropApple(a[1..]) + DropApple(b)) == (keep + DropApple(a[1..])) + DropApple(b);
    } else {
      assert a + b == b;
    }
  }

  /** The filter decides the first entry, then filters the rest. */
  lemma DropAppleStep(es: seq<Entry>)
    requires |es| > 0
    ensures DropApple(es) == (if es[0].source != "Apple" then [es[0]] else []) + DropApple(es[1..])
  {
  }

  /**
   The render-time "Apple" filter never drops anything: a record whose source
   formats as "Apple" was already refused by `should_include_app`.
   */
  lemma AppleDropIsRedundant(system: set<string>, records: seq<AppRecord>, c: string)
    ensures DropApple(Placed(system, records, c)) == Placed(system, records, c)
  {
    PlacedEntriesAdmissible(system, records, c);
  }

  /** Category `c` prints: its bucket exists and keeps something after the "Apple" filter. */
  predicate Prints(m: map<string, seq<Entry>>, c: string) {
    c in m && DropApple(m[c]) != []
  }

  /** The categories of `cats` that print, in the order of `cats`. */
  function PrintedCategories(m: map<string, seq<Entry>>, cats: seq<string>): (r: seq<string>)
    ensures forall c :: c in r <==> c in cats && Prints(m, c)
    ensures StrictlyAscending(cats) ==> StrictlyAscending(r)
  {
    if |cats| == 0 then []
    else
      var rest := PrintedCategories(m, cats[1..]);
      SplitHead(cats);
      StrictlyAscendingTail(cats);
      if Prints(m, cats[0]) then
        PrependAscending(cats, rest);
        [cats[0]] + rest
      else
        rest
  }

  /**
   The render loop over the categories `cats`: each category that prints
   becomes one block, its entries sorted by name.
   */
  function SectionsOver(m: map<string, seq<Entry>>, cats: seq<string>): (r: seq<Section>)
    ensures SectionCategories(r) == PrintedCategories(m, cats)
    ensures forall i :: 0 <= i < |r| ==>
              && r[i].category in m
              && r[i].entries == SortByName(DropApple(m[r[i].category]))
              && r[i].entries != []
  {
    var printed := PrintedCategories(m, cats);
    assert forall i :: 0 <= i < |printed| ==> Prints(m, printed[i]) by {
      forall i | 0 <= i < |printed|
        ensures Prints(m, printed[i])
      {
        assert printed[i] in printed;
      }
    }
    seq(|printed|, i requires 0 <= i < |printed| =>
                     assert printed[i] in printed;
                     Section(printed[i], SortByName(DropApple(m[printed[i]]))))
  }

  lemma SplitHead(cats: seq<string>)
    requires |cats| > 0
    ensures forall c :: c in cats <==> c == cats[0] || c in cats[1..]
  {
    assert cats == [cats[0]] + cats[1..];
  }

  /** Putting the first of `cats` in front of printed categories drawn from the rest keeps them ascending. */
  lemma PrependAscending(cats: seq<string>, rest: seq<string>)
    requires |cats| > 0
    requires forall c :: c in rest ==> c in cats[1..]
    requires StrictlyAscending(cats) ==> StrictlyAscending(rest)
    ensures StrictlyAscending(cats) ==> StrictlyAscending([cats[0]] + rest)
  {
    if StrictlyAscending(cats) {
      forall j | 0 <= j < |rest|
        ensures Less(cats[0], rest[j])
      {
        assert rest[j] in rest;
        var k :| 0 <= k < |cats[1..]| && cats[1..][k] == rest[j];
        assert cats[k + 1] == rest[j];
      }
      ConsAscending(cats[0], rest);
    }
  }

  /** The categories of the sections, in order. */
  function SectionCategories(ss: seq<Section>): (r: seq<string>)
    ensures |r| == |ss| && forall i :: 0 <= i < |ss| ==> r[i] == ss[i].category
  {
    seq(|ss|, i requires 0 <= i < |ss| => ss[i].category)
  }

  lemma StrictlyAscendingTail(cats: seq<string>)
    requires |cats| > 0
    ensures StrictlyAscending(cats) ==> StrictlyAscending(cats[1..])
  {
    forall i, j | 0 <= i < j < |cats[1..]|
      ensures StrictlyAscending(cats) ==> Less(cats[1..][i], cats[1..][j])
    {
      assert cats[1..][i] == cats[i + 1] && cats[1..][j] == cats[j + 1];
    }
  }

  lemma ConsAscending(c: string, cats: seq<string>)
    requires StrictlyAscending(cats)
    requires forall j :: 0 <= j < |cats| ==> Less(c, cats[j])
    ensures StrictlyAscending([c] + cats)
  {
    var r := [c] + cats;
    forall i, j | 0 <= i < j < |r|
      ensures Less(r[i], r[j])
    {
      if i > 0 {
        assert r[i] == cats[i - 1] && r[j] == cats[j - 1];
      } else {
        assert r[j] == cats[j - 1];
      }
    }
  }

  /** The category blocks `main` prints, in print order. */
  function Sections(system: set<string>, records: seq<AppRecord>): seq<Section> {
    SectionsOver(Buckets(system, records), SortedCategories)
  }

  /** A category prints exactly when some admitted record was placed in it. */
  lemma PrintsIffPlaced(system: set<string>, records: seq<AppRecord>, c: string)
    ensures Prints(Buckets(system, records), c) <==> Placed(system, records, c) != []
    ensures Prints(Buckets(system, records), c) ==> c in SortedCategories
    ensures Prints(Buckets(system, records), c) ==>
              DropApple(Buckets(system, records)[c]) == Placed(system, records, c)
  {
    var m := Buckets(system, records);
    BucketsSpec(system, records);
    assert Lookup(m, c) == Placed(system, records, c);
    AppleDropIsRedundant(system, records, c);
  }

  /** The printed categories: ascending, and exactly those that admitted something. */
  lemma SectionsOrder(system: set<string>, records: seq<AppRecord>)
    ensures var ss := Sections(system, records);
            && StrictlyAscending(SectionCategories(ss))
            && (forall c :: c in SectionCategories(ss) <==> Placed(system, records, c) != [])
  {
    var ss := Sections(system, records);
    CategoriesAscending();
    forall c
      ensures c in SectionCategories(ss) <==> Placed(system, records, c) != []
    {
      PrintsIffPlaced(system, records, c);
    }
  }

  /** Block `i` holds its category's admitted entries, sorted stably by name. */
  lemma SectionContents(system: set<string>, records: seq<AppRecord>, i: int)
    requires 0 <= i < |Sections(system, records)|
    ensures var s := Sections(system, records)[i];
            && s.entries != []
            && SortedByName(s.entries)
            && multiset(s.entries) == multiset(Placed(system, records, s.category))
            && forall k :: Named(s.entries, k) == Named(Placed(system, records, s.category), k)
  {
    var m := Buckets(system, records);
    var ss := Sections(system, records);
    assert SectionCategories(ss)[i] == ss[i].category;
    assert ss[i].category in PrintedCategories(m, SortedCategories);
    PrintsIffPlaced(system, records, ss[i].category);
    SortByNamePermutes(Placed(system, records, ss[i].category));
  }

  /**
   What the printed blocks are: one per category that admitted something,
   in ascending category order, each holding exactly that category's
   admitted entries, sorted by name and, among equal names, in input order.
   */
  lemma SectionsCharacterized(system: set<string>, records: seq<AppRecord>)
    ensures var ss := Sections(system, records);
            && StrictlyAscending(SectionCategories(ss))
            && (forall c :: c in SectionCategories(ss) <==> Placed(system, records, c) != [])
            && (forall i :: 0 <= i < |ss| ==>
                  && ss[i].entries != []
                  && SortedByName(ss[i].entries)
                  && multiset(ss[i].entries) == multiset(Placed(system, records, ss[i].category))
                  && forall k :: Named(ss[i].entries, k) == Named(Placed(system, records, ss[i].category), k))
  {
    SectionsOrder(system, records);
    forall i | 0 <= i < |Sections(system, records)|
      ensures var s := Sections(system, records)[i];
              && s.entries != []
              && SortedByName(s.entries)
              && multiset(s.entries) == multiset(Placed(system, records, s.category))
              && forall k :: Named(s.entries, k) == Named(Placed(system, records, s.category), k)
    {
      SectionContents(system, records, i);
    }
  }

  /** No entry of any printed block names a system application. */
  lemma NoSystemAppReported(system: set<string>, records: seq<AppRecord>)
    ensures forall s, e :: s in Sections(system, records) && e in s.entries ==> e.name !in system
  {
    var ss := Sections(system, records);
    forall i, e | 0 <= i < |ss| && e in ss[i].entries
      ensures e.name !in system
    {
      SectionEntriesAdmissible(system, records, i, e);
    }
  }

  /** An entry of block `i` is one of its category's placed entries, so it names no system application. */
  lemma SectionEntriesAdmissible(system: set<string>, records: seq<AppRecord>, i: int, e: Entry)
    requires 0 <= i < |Sections(system, records)|
    requires e in Sections(system, records)[i].entries
    ensures e.name !in system
  {
    var s := Sections(system, records)[i];
    SectionContents(system, records, i);
    assert e in multiset(s.entries);
    PlacedEntriesAdmissible(system, records, s.category);
  }

  /** The buckets of a one-record inventory. */
  lemma PlacedSingle(system: set<string>, app: AppRecord, c: string)
    ensures Placed(system, [app], c) == if Admitted(system, app) && CategoryOf(app) == c then [ToEntry(app)] else []
  {
    assert [app][..0] == [];
  }

  /** An ascending sequence whose members all equal `x` has at most one of them. */
  lemma AscendingSingleValue(cats: seq<string>, x: string)
    requires StrictlyAscending(cats)
    requires forall c :: c in cats ==> c == x
    ensures |cats| <= 1
  {
    if |cats| > 1 {
      assert cats[0] in cats && cats[1] in cats;
      LessIrreflexive(x);
    }
  }

  /** A sequence with the multiset of one element is that element alone. */
  lemma SingletonByMultiset(es: seq<Entry>, e: Entry)
    requires multiset(es) == multiset{e}
    ensures es == [e]
  {
    assert |es| == 1;
    assert es[0] in multiset(es);
  }

  /** An excluded record alone produces no block. */
  lemma SingleExcludedRecord(system: set<string>, app: AppRecord)
    requires !Admitted(system, app)
    ensures Sections(system, [app]) == []
  {
    NothingAdmittedNoSections(system, [app]);
  }

  /** An admitted record alone produces exactly one block, under its own category. */
  lemma SingleAdmittedCategory(system: set<string>, app: AppRecord)
    requires Admitted(system, app)
    ensures |Sections(system, [app])| == 1
    ensures Sections(system, [app])[0].category == CategoryOf(app)
  {
    var ss := Sections(system, [app]);
    SectionsOrder(system, [app]);
    var cats := SectionCategories(ss);
    forall c | c in cats
      ensures c == CategoryOf(app)
    {
      PlacedSingle(system, app, c);
    }
    AscendingSingleValue(cats, CategoryOf(app));
    PlacedSingle(system, app, CategoryOf(app));
    assert CategoryOf(app) in cats;
  }

  /** The one block of an admitted record alone holds just its entry. */
  lemma SingleAdmittedEntries(system: set<string>, app: AppRecord)
    requires Admitted(system, app)
    ensures |Sections(system, [app])| == 1
    ensures Sections(system, [app])[0].entries == [ToEntry(app)]
  {
    SingleAdmittedCategory(system, app);
    SectionContents(system, [app], 0);
    PlacedSingle(system, app, CategoryOf(app));
    SingletonByMultiset(Sections(system, [app])[0].entries, ToEntry(app));
  }

  /** An admitted record alone produces one block, under its category, holding its entry. */
  lemma SingleAdmittedRecord(system: set<string>, app: AppRecord)
    requires Admitted(system, app)
    ensures Sections(system, [app]) == [Section(CategoryOf(app), [ToEntry(app)])]
  {
    SingleAdmittedCategory(system, app);
    SingleAdmittedEntries(system, app);
    OneSection(Sections(system, [app]), Section(CategoryOf(app), [ToEntry(app)]));
  }

  lemma OneSection(ss: seq<Section>, s: Section)
    requires |ss| == 1 && ss[0].category == s.category && ss[0].entries == s.entries
    ensures ss == [s]
  {
  }

  /** What one record alone produces: one block holding its entry, or nothing. */
  lemma SingleRecordSections(system: set<string>, app: AppRecord)
    ensures Admitted(system, app) ==> Sections(system, [app]) == [Section(CategoryOf(app), [ToEntry(app)])]
    ensures !Admitted(system, app) ==> Sections(system, [app]) == []
  {
    if Admitted(system, app) {
      SingleAdmittedRecord(system, app);
    } else {
      SingleExcludedRecord(system, app);
    }
  }

  /** The bullet that opens every entry line. */
  const Bullet: string := "\U{2022} "

  /** The bullet line of one entry: the version clause appears only for a known version. */
  function EntryLine(e: Entry): (r: string)
    ensures StartsWith(r, Bullet + e.name)
    ensures EndsWith(r, " [" + e.source + "]")
    ensures e.version == Unknown <==> |r| == |e.name| + |e.source| + 5
    ensures e.version != Unknown ==> |r| == |Bullet + e.name| + |" (v" + e.version + ")"| + |" [" + e.source + "]"|
    ensures e.version != Unknown ==> r[|Bullet + e.name|..|r| - |" [" + e.source + "]"|] == " (v" + e.version + ")"
  {
    if e.version != Unknown then Bullet + e.name + " (v" + e.version + ") [" + e.source + "]"
    else Bullet + e.name + " [" + e.source + "]"
  }

  /** `n` copies of the character `c`. */
  function Repeat(c: char, n: nat): (r: string)
    ensures |r| == n && forall i :: 0 <= i < n ==> r[i] == c
  {
    seq(n, _ => c)
  }

  /** The lines of one block: its header, a rule as long as the name, then one line per entry. */
  function SectionLines(s: Section): (r: seq<string>)
    ensures |r| == |s.entries| + 2
    ensures r[0] == "\n" + s.category + ":"
    ensures r[1] == Repeat('-', |s.category|)
    ensures forall i :: 0 <= i < |s.entries| ==> r[i + 2] == EntryLine(s.entries[i])
  {
    ["\n" + s.category + ":", Repeat('-', |s.category|)] +
      seq(|s.entries|, i requires 0 <= i < |s.entries| => EntryLine(s.entries[i]))
  }

  /** The blocks' lines, one block after the other. */
  function Render(ss: seq<Section>): (r: seq<string>)
    ensures r == [] <==> ss == []
    ensures |ss| > 0 ==> |r| >= |ss[0].entries| + 2 && r[0] == "\n" + ss[0].category + ":"
    ensures |ss| > 0 ==> r[..|ss[0].entries| + 2] == SectionLines(ss[0])
  {
    if |ss| == 0 then [] else SectionLines(ss[0]) + Render(ss[1..])
  }

  /** Rendering two runs of blocks is rendering the first, then the second. */
  lemma {:induction false} RenderConcat(a: seq<Section>, b: seq<Section>)
    ensures Render(a + b) == Render(a) + Render(b)
    decreases |a|
  {
    if |a| > 0 {
      assert (a + b)[1..] == a[1..] + b;
      RenderConcat(a[1..], b);
    } else {
      assert a + b == b;
    }
  }

  /** The lines printed before the blocks. */
  const Banner: seq<string> :=
    ["Analyzing installed applications...", "\nThird-Party Applications by Category:", Repeat('=', 50)]

  /** Everything `main` prints, given the system applications and the inventory. */
  function Report(system: set<string>, records: seq<AppRecord>): (lines: seq<string>)
    ensures |lines| >= |Banner| && lines[..|Banner|] == Banner
  {
    Banner + Render(Sections(system, records))
  }

  /** With nothing admitted, no category header is printed: only the banner. */
  lemma NothingAdmittedPrintsBannerOnly(system: set<string>, records: seq<AppRecord>)
    requires forall i :: 0 <= i < |records| ==> !Admitted(system, records[i])
    ensures Report(system, records) == Banner
  {
    NothingAdmittedNoSections(system, records);
  }

  /** With nothing admitted there is no block at all. */
  lemma NothingAdmittedNoSections(system: set<string>, records: seq<AppRecord>)
    requires forall i :: 0 <= i < |records| ==> !Admitted(system, records[i])
    ensures Sections(system, records) == []
  {
    var ss := Sections(system, records);
    if |ss| > 0 {
      SectionContents(system, records, 0);
      var c := ss[0].category;
      var e := ss[0].entries[0];
      assert e in multiset(Placed(system, records, c));
      PlacedFromAdmitted(system, records, c, e);
      assert false;
    }
  }

  /** The Obsidian record passes every filter and formats its source as "Verified Dev". */
  lemma ObsidianAdmitted(app: AppRecord)
    requires app == AppRecord("Obsidian", "/Applications/Obsidian.app", "1.2.0", "identified_developer")
    ensures Admitted({}, app)
    ensures CategoryOf(app) == Productivity
    ensures ToEntry(app) == Entry("Obsidian", "1.2.0", "Verified Dev")
  {
    ObsidianIncluded(app);
    VerifiedDevLabel(app.source);
    ObsidianIsProductivity(app.name, app.path);
  }

  lemma ObsidianIncluded(app: AppRecord)
    requires app == AppRecord("Obsidian", "/Applications/Obsidian.app", "1.2.0", "identified_developer")
    ensures ShouldInclude(app)
  {
    assert app.name !in ExcludedNames;
    assert Lower(app.source) == "identified_developer";
    assert app.path[..|"/Applications/"|] == "/Applications/";
    ApplicationsFolderIsNotSystem(app.path);
  }

  /** Rendering a single block yields that block's lines. */
  lemma RenderOne(s: Section)
    ensures Render([s]) == SectionLines(s)
  {
    assert [s][1..] == [];
  }

  /** The lines of a report whose only block is `s`. */
  lemma OneBlockReport(system: set<string>, records: seq<AppRecord>, s: Section)
    requires Sections(system, records) == [s]
    ensures Report(system, records) == Banner + SectionLines(s)
  {
    RenderOne(s);
  }

  /** The Productivity block holding the Obsidian entry. */
  lemma ObsidianBlockLines(s: Section)
    requires s == Section(Productivity, [Entry("Obsidian", "1.2.0", "Verified Dev")])
    ensures SectionLines(s) == ["\nProductivity:", "------------", Bullet + "Obsidian (v1.2.0) [Verified Dev]"]
  {
    var r := SectionLines(s);
    assert r[0] == "\nProductivity:";
    assert r[1] == "------------";
    ObsidianEntryLine(s.entries[0]);
  }

  lemma ObsidianEntryLine(e: Entry)
    requires e == Entry("Obsidian", "1.2.0", "Verified Dev")
    ensures EntryLine(e) == Bullet + "Obsidian (v1.2.0) [Verified Dev]"
  {
    assert e.version != Unknown;
  }

  /** An inventory of one Obsidian record prints one Productivity block with its bullet line. */
  lemma ObsidianScenario(app: AppRecord)
    requires app == AppRecord("Obsidian", "/Applications/Obsidian.app", "1.2.0", "identified_developer")
    ensures Report({}, [app]) ==
              Banner + ["\nProductivity:", "------------", Bullet + "Obsidian (v1.2.0) [Verified Dev]"]
  {
    ObsidianAdmitted(app);
    SingleAdmittedRecord({}, app);
    var s := Section(Productivity, [Entry("Obsidian", "1.2.0", "Verified Dev")]);
    OneBlockReport({}, [app], s);
    ObsidianBlockLines(s);
  }

  /** A bundled Keynote is never reported, whatever else the inventory says about it. */
  lemma KeynoteNotReported(system: set<string>, app: AppRecord)
    requires app.name == "Keynote"
    ensures !Admitted(system, app)
    ensures Report(system, [app]) == Banner
  {
    assert app.name in ExcludedNames;
    NothingAdmittedPrintsBannerOnly(system, [app]);
  }

  /** The vUbuntu record passes every filter; its version and source are unknown. */
  lemma VersionedUbuntuAdmitted(app: AppRecord)
    requires app == AppRecord("vUbuntu 22.04", "/Applications/vUbuntu.app", Unknown, "unknown")
    ensures Admitted({}, app)
    ensures CategoryOf(app) == Virtualization
    ensures ToEntry(app) == Entry("vUbuntu 22.04", Unknown, Unknown)
  {
    VersionedUbuntuIncluded(app);
    UnknownLabel(app.source);
    VersionedUbuntuIsVirtualization(app.name, app.path);
  }

  lemma VersionedUbuntuIncluded(app: AppRecord)
    requires app == AppRecord("vUbuntu 22.04", "/Applications/vUbuntu.app", Unknown, "unknown")
    ensures ShouldInclude(app)
  {
    assert app.name !in ExcludedNames;
    assert Lower(app.source) == "unknown";
    assert app.path[..|"/Applications/"|] == "/Applications/";
    ApplicationsFolderIsNotSystem(app.path);
  }

  /** The Virtualization block holding the vUbuntu entry: no version clause. */
  lemma VersionedUbuntuBlockLines(s: Section)
    requires s == Section(Virtualization, [Entry("vUbuntu 22.04", Unknown, Unknown)])
    ensures SectionLines(s) == ["\nVirtualization:", "--------------", Bullet + "vUbuntu 22.04 [Unknown]"]
  {
    var r := SectionLines(s);
    assert r[0] == "\nVirtualization:";
    assert r[1] == "--------------";
    assert r[2] == Bullet + "vUbuntu 22.04 [Unknown]";
  }

  /** An inventory of one vUbuntu record of unknown version prints a Virtualization block. */
  lemma VersionedUbuntuScenario(app: AppRecord)
    requires app == AppRecord("vUbuntu 22.04", "/Applications/vUbuntu.app", Unknown, "unknown")
    ensures Report({}, [app]) ==
              Banner + ["\nVirtualization:", "--------------", Bullet + "vUbuntu 22.04 [Unknown]"]
  {
    VersionedUbuntuAdmitted(app);
    SingleAdmittedRecord({}, app);
    var s := Section(Virtualization, [Entry("vUbuntu 22.04", Unknown, Unknown)]);
    OneBlockReport({}, [app], s);
    VersionedUbuntuBlockLines(s);
  }
}
