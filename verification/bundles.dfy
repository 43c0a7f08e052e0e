/**
 The name derivation inside `get_system_apps`: each directory entry ending in
 ".app" becomes a system-application name by deleting every ".app" in it.
 Listing the directories is left to the caller: a directory that does not
 exist contributes an empty listing.
 */
module Bundles {
  import opened Text

  const AppSuffix: string := ".app"

  /** The name the script derives from a kept entry: every ".app" in it deleted. */
  function BundleName(entry: string): string {
    ReplaceAll(entry, AppSuffix)
  }

  /** The derived names of the entries that end in ".app", in listing order. */
  function DerivedNames(entries: seq<string>): (r: seq<string>)
    ensures |r| <= |entries|
    ensures forall j :: 0 <= j < |entries| && EndsWith(entries[j], AppSuffix) ==> BundleName(entries[j]) in r
    ensures forall n :: n in r ==> exists j :: 0 <= j < |entries| && EndsWith(entries[j], AppSuffix) && n == BundleName(entries[j])
  {
    if |entries| == 0 then []
    else
      var rest := DerivedNames(entries[1..]);
      assert forall j :: 1 <= j < |entries| ==> entries[1..][j - 1] == entries[j];
      (if EndsWith(entries[0], AppSuffix) then [BundleName(entries[0])] else []) + rest
  }

  /** The system application names: the union of the names derived from every listed directory. */
  function SystemApps(listings: seq<seq<string>>): (r: set<string>)
    ensures forall d, j :: 0 <= d < |listings| && 0 <= j < |listings[d]| && EndsWith(listings[d][j], AppSuffix) ==>
              BundleName(listings[d][j]) in r
    ensures forall n :: n in r ==>
              exists d, j :: 0 <= d < |listings| && 0 <= j < |listings[d]| && EndsWith(listings[d][j], AppSuffix) &&
                             n == BundleName(listings[d][j])
  {
    if |listings| == 0 then {}
    else
      var rest := SystemApps(listings[1..]);
      assert forall d :: 1 <= d < |listings| ==> listings[1..][d - 1] == listings[d];
      (set n | n in DerivedNames(listings[0])) + rest
  }

  /**
   What the deletion was meant to do: drop the trailing ".app" and nothing
   else.
   */
  function StripAppSuffix(entry: string): (r: string)
    requires EndsWith(entry, AppSuffix)
    ensures r + AppSuffix == entry
  {
    entry[..|entry| - |AppSuffix|]
  }

  /** The derivation as intended: every kept entry loses exactly its suffix. */
  function IntendedNames(entries: seq<string>): (r: seq<string>)
    ensures |r| <= |entries|
    ensures forall n :: n in r ==> n + AppSuffix in entries
    ensures forall j :: 0 <= j < |entries| && EndsWith(entries[j], AppSuffix) ==> StripAppSuffix(entries[j]) in r
  {
    if |entries| == 0 then []
    else
      var rest := IntendedNames(entries[1..]);
      assert forall j :: 1 <= j < |entries| ==> entries[1..][j - 1] == entries[j];
      (if EndsWith(entries[0], AppSuffix) then [StripAppSuffix(entries[0])] else []) + rest
  }

  /**
   The system application names as intended: the union of the names each listing
   yields once the trailing ".app" alone is dropped.
   */
  function IntendedSystemApps(listings: seq<seq<string>>): (r: set<string>)
    ensures forall d, j :: 0 <= d < |listings| && 0 <= j < |listings[d]| && EndsWith(listings[d][j], AppSuffix) ==>
              StripAppSuffix(listings[d][j]) in r
    ensures forall n :: n in r ==> exists d :: 0 <= d < |listings| && n + AppSuffix in listings[d]
  {
    if |listings| == 0 then {}
    else
      var rest := IntendedSystemApps(listings[1..]);
      assert forall d :: 1 <= d < |listings| ==> listings[1..][d - 1] == listings[d];
      (set n | n in IntendedNames(listings[0])) + rest
  }

  /**
   Deleting every ".app" from `stem + ".app"` deletes the same text as from
   `stem` alone: no occurrence straddles the boundary, because no proper
   prefix of ".app" is also a suffix of it.
   */
  lemma {:induction false} TrailingSuffixDeleted(stem: string)
    ensures ReplaceAll(stem + AppSuffix, AppSuffix) == ReplaceAll(stem, AppSuffix)
    decreases |stem|
  {
    var s := stem + AppSuffix;
    if |stem| == 0 {
      assert s == AppSuffix;
      assert s[|AppSuffix|..] == [];
    } else if StartsWith(stem, AppSuffix) {
      assert StartsWith(s, AppSuffix);
      assert s[|AppSuffix|..] == stem[|AppSuffix|..] + AppSuffix;
      TrailingSuffixDeleted(stem[|AppSuffix|..]);
    } else {
      assert !StartsWith(s, AppSuffix) by {
        if |stem| >= |AppSuffix| {
          assert s[..|AppSuffix|] == stem[..|AppSuffix|];
        } else {
          assert s[|stem|] == '.';
          assert AppSuffix[|stem|] != '.';
        }
      }
      assert s[1..] == stem[1..] + AppSuffix;
      TrailingSuffixDeleted(stem[1..]);
    }
  }

  /**
   The two derivations agree on every entry whose only ".app" is its
   trailing one.
   */
  lemma AsWrittenAgreesOnPlainEntries(entry: string)
    requires EndsWith(entry, AppSuffix) && !Contains(StripAppSuffix(entry), AppSuffix)
    ensures BundleName(entry) == StripAppSuffix(entry)
  {
    TrailingSuffixDeleted(StripAppSuffix(entry));
  }

  /**
   Where the text differs from ".app" at some index `i` of the suffix, no
   occurrence starts, and the scan keeps the first character.
   */
  lemma ReplaceKeepsHead(s: string, i: int)
    requires 0 <= i < |s| && i < |AppSuffix| && s[i] != AppSuffix[i]
    ensures BundleName(s) == [s[0]] + BundleName(s[1..])
  {
  }

  /** At an occurrence, the scan deletes it and resumes just after it. */
  lemma ReplaceSkipsOccurrence(rest: string)
    ensures BundleName(AppSuffix + rest) == BundleName(rest)
  {
    var s := AppSuffix + rest;
    assert StartsWith(s, AppSuffix);
    assert s[|AppSuffix|..] == rest;
  }

  /** A character other than '.' followed by an occurrence: the character stays, the occurrence goes. */
  lemma KeepThenSkip(c: char, rest: string)
    requires c != '.'
    ensures BundleName([c] + AppSuffix + rest) == [c] + BundleName(rest)
  {
    var s := [c] + AppSuffix + rest;
    ReplaceKeepsHead(s, 0);
    assert s[1..] == AppSuffix + rest;
    ReplaceSkipsOccurrence(rest);
  }

  /** An entry with ".app" inside its name loses more than its suffix. */
  lemma AsWrittenManglesInnerApp(entry: string)
    requires entry == "My.apps.app"
    ensures BundleName(entry) == "Mys"
    ensures StripAppSuffix(entry) == "My.apps"
  {
    ReplaceKeepsHead(entry, 0);
    assert entry[1..] == ['y'] + AppSuffix + "s.app";
    KeepThenSkip('y', "s.app");
    assert "s.app" == ['s'] + AppSuffix + "";
    KeepThenSkip('s', "");
  }

  /**
   A derived name may still contain ".app": deleting the inner occurrence
   joins the text around it into a new one, which is not scanned again.
   */
  lemma DerivedNameMayContainApp(entry: string)
    requires entry == ".ap.appp.app"
    ensures EndsWith(entry, AppSuffix)
    ensures BundleName(entry) == AppSuffix
  {
    ReplaceKeepsHead(entry, 3);
    assert entry[1..] == "ap.appp.app";
    ReplaceKeepsHead("ap.appp.app", 0);
    assert "ap.appp.app"[1..] == "p.appp.app";
    JoinedTail("p.appp.app");
  }

  /** The tail of that example: "p", a deleted ".app", then "p.app", which yields "p". */
  lemma JoinedTail(tail: string)
    requires tail == "p.appp.app"
    ensures BundleName(tail) == "pp"
  {
    assert tail == ['p'] + AppSuffix + ['p'] + AppSuffix;
    DoubledSuffix('p', tail);
  }

  /** Two kept characters, each followed by a deleted occurrence. */
  lemma DoubledSuffix(c: char, tail: string)
    requires c != '.' && tail == [c] + AppSuffix + [c] + AppSuffix
    ensures BundleName(tail) == [c, c]
  {
    KeepThenSkip(c, "");
    assert [c] + AppSuffix + "" == [c] + AppSuffix;
    KeepThenSkip(c, [c] + AppSuffix);
    assert [c] + AppSuffix + ([c] + AppSuffix) == [c] + AppSuffix + [c] + AppSuffix;
  }
}
