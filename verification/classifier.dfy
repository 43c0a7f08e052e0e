/**
 The category classifier `get_app_category`: an exact-name override table,
 then a case-insensitive "ubuntu" rule, then an ordered keyword table in
 which the first category with a matching keyword wins, then "Other".
 */
module Classifier {
  import opened Text

  const Development := "Development"
  const Browsers := "Browsers & Internet"
  const Security := "Security & Privacy"
  const Productivity := "Productivity"
  const Utilities := "Utilities"
  const Media := "Media & Creative"
  const Cloud := "Cloud Storage"
  const Virtualization := "Virtualization"
  const Other := "Other"

  /** Names whose category is fixed outright, whatever keywords they contain. */
  const Overrides: map<string, string> := map[
    "Google Slides" := Productivity,
    "Google Docs" := Productivity,
    "Google Sheets" := Productivity,
    "Keynote" := Productivity,
    "Pages" := Productivity,
    "Numbers" := Productivity,
    "Obsidian" := Productivity,
    "OnyX" := Utilities,
    "SteerMouse" := Utilities,
    "Tabby" := Development,
    "Ubuntu" := Virtualization,
    "Yubico Authenticator" := Security,
    "iStat Menus" := Utilities,
    "iStat Menus Helper" := Utilities,
    "iStat Menus Menubar" := Utilities,
    "Scam Copilot" := Security,
    "Rectangle Pro" := Utilities,
    "AppCleaner" := Utilities,
    "Bartender 5" := Utilities,
    "ForkLift" := Utilities,
    "Swift Quit" := Utilities
  ]

  const DevelopmentKeywords: seq<string> :=
    ["Visual Studio Code", "Xcode", "Docker", "iTerm", "Python",
     "Developer", "IDE", "Terminal", "Code", "Git"]
  const BrowserKeywords: seq<string> :=
    ["Chrome", "Firefox", "Safari", "Opera", "Edge", "Arc", "Browser"]
  const SecurityKeywords: seq<string> :=
    ["1Password", "Bitwarden", "VPN", "Antivirus", "Bitdefender",
     "Password", "Security", "Radio Silence", "Yubico", "Scam"]
  const ProductivityKeywords: seq<string> :=
    ["Office", "Docs", "Sheets", "Slides", "Notes", "Task",
     "Calendar", "Mail", "Presentation", "Document"]
  const UtilityKeywords: seq<string> :=
    ["Rectangle", "Bartender", "AppCleaner", "ForkLift",
     "Utility", "Cleaner", "Manager", "Stats", "Monitor",
     "Helper", "Menu"]
  const MediaKeywords: seq<string> :=
    ["DaVinci", "Luminar", "Screen", "Spotify",
     "Music", "Photo", "Video", "Audio", "Creative", "Media"]
  const CloudKeywords: seq<string> :=
    ["Google Drive", "Dropbox", "iCloud", "OneDrive", "Box", "Sync"]
  const VirtualizationKeywords: seq<string> :=
    ["Parallels", "VMware", "VirtualBox", "Virtual", "VM", "Linux",
     "Windows", "Ubuntu"]

  /** The keyword table, in the declaration order that breaks ties. */
  const KeywordTable: seq<(string, seq<string>)> := [
    (Development, DevelopmentKeywords),
    (Browsers, BrowserKeywords),
    (Security, SecurityKeywords),
    (Productivity, ProductivityKeywords),
    (Utilities, UtilityKeywords),
    (Media, MediaKeywords),
    (Cloud, CloudKeywords),
    (Virtualization, VirtualizationKeywords)
  ]

  /** Every category the classifier can answer, in ascending code-point order. */
  const SortedCategories: seq<string> :=
    [Browsers, Cloud, Development, Media, Other, Productivity, Security, Utilities, Virtualization]

  /** Some keyword of the row, lower-cased, is a substring of the lower-cased name. */
  predicate RowMatches(lname: string, keywords: seq<string>) {
    exists k :: 0 <= k < |keywords| && Contains(lname, Lower(keywords[k]))
  }

  /** Row `i` is the first row of `table` whose keywords match. */
  ghost predicate FirstMatchingRow(lname: string, table: seq<(string, seq<string>)>, i: int) {
    && 0 <= i < |table|
    && RowMatches(lname, table[i].1)
    && forall j :: 0 <= j < i ==> !RowMatches(lname, table[j].1)
  }

  /** The ordered scan over the keyword table, with "Other" as fallback. */
  function FirstMatch(lname: string, table: seq<(string, seq<string>)>): string {
    if |table| == 0 then Other
    else if RowMatches(lname, table[0].1) then table[0].0
    else FirstMatch(lname, table[1..])
  }

  /**
   The scan answers "Other" when no row matches, and otherwise the category
   of the first matching row.
   */
  lemma {:induction false} FirstMatchSpec(lname: string, table: seq<(string, seq<string>)>)
    ensures (forall i :: 0 <= i < |table| ==> !RowMatches(lname, table[i].1)) ==> FirstMatch(lname, table) == Other
    ensures (exists i :: 0 <= i < |table| && RowMatches(lname, table[i].1)) ==>
              exists i :: FirstMatchingRow(lname, table, i) && FirstMatch(lname, table) == table[i].0
  {
    if |table| == 0 {
    } else if RowMatches(lname, table[0].1) {
      assert FirstMatchingRow(lname, table, 0);
    } else {
      FirstMatchSpec(lname, table[1..]);
      var r := FirstMatch(lname, table[1..]);
      assert forall i :: 1 <= i < |table| ==> table[1..][i - 1] == table[i];
      if exists i :: 0 <= i < |table| && RowMatches(lname, table[i].1) {
        var i :| 0 <= i < |table| && RowMatches(lname, table[i].1);
        assert RowMatches(lname, table[1..][i - 1].1);
        var i' :| FirstMatchingRow(lname, table[1..], i') && r == table[1..][i'].0;
        assert FirstMatchingRow(lname, table, i' + 1);
      }
    }
  }

  /** `get_app_category` over an arbitrary keyword table (the path is never consulted). */
  function Classify(name: string, table: seq<(string, seq<string>)>): string {
    if name in Overrides then Overrides[name]
    else if Contains(Lower(name), "ubuntu") then Virtualization
    else FirstMatch(Lower(name), table)
  }

  /** The eight table rows name eight distinct categories other than "Other". */
  lemma TableCategories()
    ensures |KeywordTable| == 8
    ensures forall i :: 0 <= i < |KeywordTable| ==> KeywordTable[i].0 in SortedCategories && KeywordTable[i].0 != Other
  {
  }

  /** Every override target is one of the nine categories. */
  lemma OverrideCategories()
    ensures forall n :: n in Overrides ==> Overrides[n] in SortedCategories
  {
  }

  /** The category of an application: always one of the nine categories. */
  function Category(name: string, path: string): (r: string)
    ensures r in SortedCategories
  {
    TableCategories();
    OverrideCategories();
    FirstMatchSpec(Lower(name), KeywordTable);
    Classify(name, KeywordTable)
  }

  /**
   The precedence of `get_app_category`: an override key gets its table
   value; otherwise a name containing "ubuntu" in any letter case is
   Virtualization; otherwise the answer is "Other" exactly when no keyword
   row matches, and any other answer is the first matching row's category.
   */
  lemma CategorySpec(name: string, path: string)
    ensures name in Overrides ==> Category(name, path) == Overrides[name]
    ensures name !in Overrides && Contains(Lower(name), "ubuntu") ==> Category(name, path) == Virtualization
    ensures name !in Overrides && !Contains(Lower(name), "ubuntu") ==>
              && (Category(name, path) == Other <==>
                    forall i :: 0 <= i < |KeywordTable| ==> !RowMatches(Lower(name), KeywordTable[i].1))
              && (Category(name, path) != Other ==>
                    exists i :: FirstMatchingRow(Lower(name), KeywordTable, i) && Category(name, path) == KeywordTable[i].0)
  {
    TableCategories();
    FirstMatchSpec(Lower(name), KeywordTable);
  }

  /** A row whose keywords each hold, at the given index, a character missing from `lname` does not match. */
  lemma NoRowMatch(lname: string, keywords: seq<string>, missing: seq<int>)
    requires |missing| == |keywords|
    requires forall k :: 0 <= k < |keywords| ==>
               0 <= missing[k] < |keywords[k]| && LowerChar(keywords[k][missing[k]]) !in lname
    ensures !RowMatches(lname, keywords)
  {
    forall k | 0 <= k < |keywords|
      ensures !Contains(lname, Lower(keywords[k]))
    {
      MissingCharNotContained(lname, Lower(keywords[k]), missing[k]);
    }
  }

  /**
   Outside the override table and the "ubuntu" rule, the first matching row
   decides, whatever later rows would also match.
   */
  lemma FirstRowWins(name: string, path: string, i: int)
    requires name !in Overrides && !Contains(Lower(name), "ubuntu")
    requires FirstMatchingRow(Lower(name), KeywordTable, i)
    ensures Category(name, path) == KeywordTable[i].0
  {
    var r := Category(name, path);
    CategorySpec(name, path);
    TableCategories();
    var i' :| FirstMatchingRow(Lower(name), KeywordTable, i') && r == KeywordTable[i'].0;
    assert !(i < i') && !(i' < i);
  }

  /** "Obsidian" is settled by the override table. */
  lemma ObsidianIsProductivity(name: string, path: string)
    requires name == "Obsidian"
    ensures Category(name, path) == Productivity
  {
    CategorySpec(name, path);
  }

  /** A versioned Ubuntu build is caught by the case-insensitive "ubuntu" rule. */
  lemma VersionedUbuntuIsVirtualization(name: string, path: string)
    requires name == "vUbuntu 22.04"
    ensures Category(name, path) == Virtualization
  {
    assert name !in Overrides;
    assert Lower(name) == "vubuntu 22.04";
    assert OccursAt(Lower(name), "ubuntu", 1);
  }

  /**
   Outside the override table and the ubuntu rule, a name containing "code" in
   any case is Development, whatever keywords of later rows it also holds.
   */
  lemma CodeNameIsDevelopment(name: string, path: string)
    requires name !in Overrides && !Contains(Lower(name), "ubuntu")
    requires Contains(Lower(name), "code")
    ensures Category(name, path) == Development
  {
    assert Lower(DevelopmentKeywords[8]) == "code";
    assert RowMatches(Lower(name), KeywordTable[0].1);
    FirstRowWins(name, path, 0);
  }

  /** "Code Browser" holds a Development and a Browsers keyword, and lands in Development. */
  lemma CodeBrowserIsDevelopment(name: string, path: string)
    requires name == "Code Browser"
    ensures RowMatches(Lower(name), BrowserKeywords)
    ensures Category(name, path) == Development
  {
    assert Lower(name) == "code browser";
    assert name !in Overrides;
    CodeBrowserKeywords(Lower(name));
    CodeNameIsDevelopment(name, path);
  }

  /** "code browser" contains "code" and "browser", and not "ubuntu". */
  lemma CodeBrowserKeywords(l: string)
    requires l == "code browser"
    ensures !Contains(l, "ubuntu")
    ensures Contains(l, "code")
    ensures RowMatches(l, BrowserKeywords)
  {
    MissingCharNotContained(l, "ubuntu", 0);
    assert OccursAt(l, "code", 0);
    assert Lower(BrowserKeywords[6]) == "browser";
    assert OccursAt(l, "browser", 5);
  }

  /** No Development or Browsers keyword occurs in "virtualbox". */
  lemma VirtualBoxMissesRowsOneTwo(l: string)
    requires l == "virtualbox"
    ensures !RowMatches(l, DevelopmentKeywords) && !RowMatches(l, BrowserKeywords)
  {
    NoRowMatch(l, DevelopmentKeywords, [2, 1, 0, 2, 0, 0, 1, 1, 0, 0]);
    NoRowMatch(l, BrowserKeywords, [0, 0, 0, 1, 0, 2, 3]);
  }

  /** No Security or Productivity keyword occurs in "virtualbox". */
  lemma VirtualBoxMissesRowsThreeFour(l: string)
    requires l == "virtualbox"
    ensures !RowMatches(l, SecurityKeywords) && !RowMatches(l, ProductivityKeywords)
  {
    NoRowMatch(l, SecurityKeywords, [0, 3, 1, 1, 3, 0, 0, 2, 0, 0]);
    NoRowMatch(l, ProductivityKeywords, [1, 0, 0, 0, 0, 2, 0, 0, 0, 0]);
  }

  /** No Utilities or Media keyword occurs in "virtualbox". */
  lemma VirtualBoxMissesRowsFiveSix(l: string)
    requires l == "virtualbox"
    ensures !RowMatches(l, UtilityKeywords) && !RowMatches(l, MediaKeywords)
  {
    NoRowMatch(l, UtilityKeywords, [1, 4, 1, 0, 6, 0, 0, 0, 0, 0, 0]);
    NoRowMatch(l, MediaKeywords, [0, 2, 0, 0, 0, 0, 2, 2, 0, 0]);
  }

  /**
   "VirtualBox" is a Virtualization keyword, yet the name lands in Cloud
   Storage: its "box" matches that earlier row first.
   */
  lemma VirtualBoxIsCloudStorage(name: string, path: string)
    requires name == "VirtualBox"
    ensures Category(name, path) == Cloud
  {
    assert Lower(name) == "virtualbox";
    assert name !in Overrides;
    VirtualBoxFirstMatchesCloud(Lower(name));
    FirstRowWins(name, path, 6);
  }

  /** Row 6 (Cloud Storage) is the first row matching "virtualbox". */
  lemma VirtualBoxFirstMatchesCloud(l: string)
    requires l == "virtualbox"
    ensures !Contains(l, "ubuntu")
    ensures FirstMatchingRow(l, KeywordTable, 6)
  {
    MissingCharNotContained(l, "ubuntu", 3);
    VirtualBoxMissesRowsOneTwo(l);
    VirtualBoxMissesRowsThreeFour(l);
    VirtualBoxMissesRowsFiveSix(l);
    assert Lower(CloudKeywords[4]) == "box";
    assert OccursAt(l, "box", 7);
    assert RowMatches(l, KeywordTable[6].1);
  }
  /** Two tables naming the same categories, row for row, with rows that match alike, scan alike. */
  lemma {:induction false} FirstMatchCongruent(lname: string, t1: seq<(string, seq<string>)>, t2: seq<(string, seq<string>)>)
    requires |t1| == |t2|
    requires forall i :: 0 <= i < |t1| ==> t1[i].0 == t2[i].0
    requires forall i :: 0 <= i < |t1| ==> (RowMatches(lname, t1[i].1) <==> RowMatches(lname, t2[i].1))
    ensures FirstMatch(lname, t1) == FirstMatch(lname, t2)
  {
    if |t1| > 0 && !RowMatches(lname, t1[0].1) {
      FirstMatchCongruent(lname, t1[1..], t2[1..]);
    }
  }

  /** Striking a keyword that does not occur in the name leaves the row's verdict unchanged. */
  lemma StrikeUnmatchedKeyword(lname: string, keywords: seq<string>, k: int)
    requires 0 <= k < |keywords| && !Contains(lname, Lower(keywords[k]))
    ensures RowMatches(lname, keywords) <==> RowMatches(lname, keywords[..k] + keywords[k + 1..])
  {
    var rest := keywords[..k] + keywords[k + 1..];
    if RowMatches(lname, keywords) {
      var j :| 0 <= j < |keywords| && Contains(lname, Lower(keywords[j]));
      if j < k {
        assert rest[j] == keywords[j];
      } else {
        assert rest[j - 1] == keywords[j];
      }
    }
    if RowMatches(lname, rest) {
      var j :| 0 <= j < |rest| && Contains(lname, Lower(rest[j]));
      if j < k {
        assert rest[j] == keywords[j];
      } else {
        assert rest[j] == keywords[j + 1];
      }
    }
  }

  /** The keyword table with the Virtualization keyword "Ubuntu" struck out. */
  const TableWithoutUbuntu: seq<(string, seq<string>)> :=
    KeywordTable[..7] + [(Virtualization, VirtualizationKeywords[..7])]

  /**
   The Virtualization keyword "Ubuntu" is dead: every name it could match is
   already answered by the "ubuntu" rule, so striking it changes no answer.
   */
  lemma UbuntuKeywordUnreachable(name: string)
    ensures Classify(name, KeywordTable) == Classify(name, TableWithoutUbuntu)
  {
    var l := Lower(name);
    if name !in Overrides && !Contains(l, "ubuntu") {
      assert Lower(VirtualizationKeywords[7]) == "ubuntu";
      StrikeUnmatchedKeyword(l, VirtualizationKeywords, 7);
      assert VirtualizationKeywords[..7] + VirtualizationKeywords[8..] == VirtualizationKeywords[..7];
      forall i | 0 <= i < |KeywordTable|
        ensures KeywordTable[i].0 == TableWithoutUbuntu[i].0
        ensures RowMatches(l, KeywordTable[i].1) <==> RowMatches(l, TableWithoutUbuntu[i].1)
      {
        if i < 7 {
          assert TableWithoutUbuntu[i] == KeywordTable[i];
        }
      }
      FirstMatchCongruent(l, KeywordTable, TableWithoutUbuntu);
    }
  }
}
