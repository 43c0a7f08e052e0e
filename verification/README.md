# Installed-applications report, modelled in Dafny

`list_installed_apps.py` lists the third-party applications installed on a
macOS machine, grouped by category. It takes an inventory of application
records, where each record has a name, path, version and source attribution.
From that inventory it:

- drops the vendor's pre-installed applications, using a name set derived
  from the system application folders and a three-test inclusion filter;
- classifies each remaining record with a first-match-wins classifier;
- buckets the records by category;
- prints one block per non-empty category, in ascending category order;
- sorts each block's entries stably by name.

The model is a set of pure functions, one module per concern.

- `Text`: the string operations the script uses, with Python's meaning:
  - ASCII `str.lower()`;
  - `startswith` and `endswith`;
  - the substring test `p in s`;
  - `str.replace(p, "")`, modelled as a left-to-right scan that deletes
    each occurrence and does not rescan.
- `Records`: the inventory record and the stored entry. The inventory's
  fields are taken as already defaulted to `"Unknown"`.
- `Classifier`: `get_app_category`. The rules apply in this order:
  1. the exact-name override table;
  2. the case-insensitive `"ubuntu"` rule;
  3. the ordered keyword table, first matching row wins;
  4. `"Other"`.
- `Inclusion`: `should_include_app` and `format_source`.
- `Bundles`: the name derivation of `get_system_apps`, both as written and
  as intended.
- `Ordering`: Python's `str` order, and the stable sort by name.
- `Report`: the body of `main`. It is a function from the set of system
  application names and the record sequence to the printed lines:
  1. admit each record;
  2. bucket it;
  3. walk the categories in ascending order;
  4. drop `"Apple"` entries;
  5. sort by name;
  6. format the lines.

The categories are walked through the constant list
`Classifier.SortedCategories`. `Report.CategoriesAscending` proves that this
list is strictly ascending under Python's code-point order. The ensures of
`Classifier.Category` proves that every category the classifier returns is in
it. So walking it in turn and skipping empty buckets visits exactly the keys
of the bucket map, in `sorted(...)` order.

## Model

| member | source | states |
|---|---|---|
| Text.Lower | list_installed_apps.py:91 | lower-casing keeps the length, maps each character on its own, and leaves no upper-case ASCII letter |
| Text.Contains | list_installed_apps.py:54 | `p in s` holds exactly when some index of `s` starts an occurrence of `p` |
| Text.ReplaceAll | list_installed_apps.py:18 | `replace(p, "")` never lengthens the text; it returns the text unchanged exactly when `p` does not occur, and it shortens it when `p` does occur |
| Classifier.FirstMatchSpec | list_installed_apps.py:91-95 | the keyword scan yields "Other" exactly when no row has a keyword that occurs in the lower-cased name; otherwise it yields the category of the first such row |
| Classifier.Category | list_installed_apps.py:22-95 | whatever the name, the answer is one of the nine category names |
| Classifier.CategorySpec | list_installed_apps.py:22-95 | an override key gets its table value; otherwise a name containing "ubuntu" in any case gets Virtualization; otherwise "Other" is returned iff no keyword matches, and any other answer is the first matching row in declared order |
| Classifier.FirstRowWins | list_installed_apps.py:57-95 | outside the override table and the ubuntu rule, the first matching row decides, whatever later rows also match |
| Classifier.CodeNameIsDevelopment | list_installed_apps.py:50-63 | a name outside the override table whose lower-cased form contains "code" but not "ubuntu" is classified Development, whatever later rows it also matches |
| Classifier.CodeBrowserIsDevelopment | list_installed_apps.py:58-63 | the single name "Code Browser" matches both the Development row (through "Code") and the Browsers & Internet row (through "Browser"), and is classified Development |
| Classifier.VirtualBoxIsCloudStorage | list_installed_apps.py:82-87 | "VirtualBox" lands in Cloud Storage through the keyword "Box", because that row precedes Virtualization |
| Classifier.VersionedUbuntuIsVirtualization | list_installed_apps.py:53-55 | "vUbuntu 22.04", which is not an override key, is classified Virtualization by the ubuntu rule |
| Classifier.UbuntuKeywordUnreachable | list_installed_apps.py:85-88 | striking "Ubuntu" from the Virtualization keywords changes no classification, because the ubuntu rule catches every such name first |
| Inclusion.ShouldInclude | list_installed_apps.py:129-157 | a record is rejected iff its name is one of the five excluded names, or its source lower-cases to "apple", or its path starts with one of the three system prefixes |
| Inclusion.ApplicationsFolderIsNotSystem | list_installed_apps.py:148-155 | a path under "/Applications/" starts with none of the system prefixes |
| Inclusion.FormatSource | list_installed_apps.py:119-127 | a source whose lower-cased form is one of the four keys gets that key's label; any other source comes back exactly as given, not lower-cased |
| Inclusion.FormatsAsAppleIffVendor | list_installed_apps.py:119-127 | the label "Apple" comes out exactly for sources that lower-case to "apple" |
| Inclusion.FormatSourceIdempotent | list_installed_apps.py:119-127 | formatting a formatted source changes nothing |
| Inclusion.VendorRecordExcluded | list_installed_apps.py:143-145 | a record whose source formats as "Apple" is rejected by the filter |
| Bundles.DerivedNames | list_installed_apps.py:18 | every listed entry ending in ".app" contributes its replaced name, and every derived name comes from such an entry |
| Bundles.SystemApps | list_installed_apps.py:9-20 | the system name set is exactly the union of the names derived from each folder's listing |
| Bundles.TrailingSuffixDeleted | list_installed_apps.py:18 | deleting every ".app" from `stem + ".app"` gives the same as deleting it from `stem` alone |
| Bundles.AsWrittenAgreesOnPlainEntries | list_installed_apps.py:18 | on an entry whose only ".app" is the trailing one, the replacement equals stripping the suffix |
| Bundles.AsWrittenManglesInnerApp | list_installed_apps.py:18 | "My.apps.app" derives "Mys", not "My.apps" |
| Bundles.DerivedNameMayContainApp | list_installed_apps.py:18 | ".ap.appp.app" derives ".app": a derived name can still contain ".app" |
| Bundles.StripAppSuffix | list_installed_apps.py:18 | the intended derivation: the name followed by ".app" is the entry |
| Bundles.IntendedNames | list_installed_apps.py:18 | each intended name followed by ".app" is a listed entry, and every entry ending in ".app" contributes its stripped name |
| Bundles.IntendedSystemApps | list_installed_apps.py:9-20 | the intended system name set: every stripped listed name is in it, and each member plus ".app" is an entry of some listing |
| Ordering.LessTotal | list_installed_apps.py:186 | Python's string order is total: two strings compare one way or the other, or are equal |
| Ordering.LessTransitive | list_installed_apps.py:186 | Python's string order is transitive |
| Ordering.Insert | list_installed_apps.py:192 | inserting into a sorted sequence keeps it sorted, adds the entry to the multiset, and places the entry last among entries of its name |
| Ordering.SortByName | list_installed_apps.py:192 | the sort result is ordered by name, has the input's length and members, and keeps the entries of each name in input order (stability) |
| Ordering.SortByNamePermutes | list_installed_apps.py:192 | the sort result is a permutation of its input |
| Report.BucketsSpec | list_installed_apps.py:169-179 | a key exists only for a category that received an entry, and it is one of the nine categories; each bucket holds, in input order, the entries of the admitted records of that category |
| Report.PlacedFromAdmitted | list_installed_apps.py:170-179 | every entry in a bucket comes from an admitted record classified into that bucket |
| Report.AdmittedIsPlaced | list_installed_apps.py:170-179 | every admitted record's entry is in the bucket of its own category |
| Report.EachAdmittedRecordPlacedOnce | list_installed_apps.py:169-179 | the bucket sizes over the nine categories add up to the number of admitted records, so each admitted record is placed exactly once |
| Report.PlacedEntriesAdmissible | list_installed_apps.py:172-177 | no bucketed entry names a system application or carries the label "Apple" |
| Report.CategoriesAscending | list_installed_apps.py:186 | the nine category names are strictly ascending and distinct in Python's string order |
| Report.DropApple | list_installed_apps.py:188 | the filter keeps exactly the entries not labelled "Apple", never lengthens the bucket, changes nothing when no entry is labelled "Apple", and maps a single entry to itself or to nothing by its label |
| Report.DropAppleConcat | list_installed_apps.py:188 | filtering a concatenation is filtering each part in turn; with the single-entry case this fixes the result as the kept entries in input order, each as often as it occurs |
| Report.AppleDropIsRedundant | list_installed_apps.py:188 | the render-time "Apple" filter removes nothing from any bucket, since such records were already rejected |
| Report.PrintedCategories | list_installed_apps.py:186-189 | the printed categories are exactly those of the walk whose filtered bucket is non-empty, and they stay in ascending order |
| Report.SectionsOver | list_installed_apps.py:186-192 | one block per printed category, holding that bucket, filtered and sorted by name, never empty |
| Report.SectionsOrder | list_installed_apps.py:185-190 | blocks come in strictly ascending category order, and a category gets a header iff some admitted record was classified into it |
| Report.SectionContents | list_installed_apps.py:186-192 | each block is non-empty, sorted by name, a permutation of its category's admitted entries, and keeps entries of equal name in input order |
| Report.SectionsCharacterized | list_installed_apps.py:185-192 | the printed blocks, all together: strictly ascending categories, a block exactly for each category some admitted record has, and each block non-empty, sorted by name, a permutation of that category's admitted entries and stable among equal names |
| Report.NoSystemAppReported | list_installed_apps.py:172 | no entry of any printed block names a system application |
| Report.SingleRecordSections | list_installed_apps.py:169-192 | one record alone yields exactly one block holding its entry under its category if admitted, and no block otherwise |
| Report.EntryLine | list_installed_apps.py:193-196 | the line starts with the bullet and name and ends with the bracketed source; between them stands " (v<version>)" for a known version, and nothing when the version is "Unknown" |
| Report.SectionLines | list_installed_apps.py:190-196 | a block prints its header, a rule of dashes as long as the category name, then one line per entry, in order |
| Report.Render | list_installed_apps.py:186-196 | the blocks print one after another: no lines exactly when there is no block, and otherwise the output opens with the first block's lines: its header, its rule and its entry lines |
| Report.RenderConcat | list_installed_apps.py:186-196 | printing two runs of blocks is printing the first run, then the second |
| Report.Report | list_installed_apps.py:159-196 | the output always begins with the three banner lines |
| Report.NothingAdmittedPrintsBannerOnly | list_installed_apps.py:185-189 | with no record admitted, no category header is printed |
| Report.KeynoteNotReported | list_installed_apps.py:132-141 | a record named Keynote is never admitted, and an inventory of it alone prints only the banner |
| Report.ObsidianScenario | list_installed_apps.py:169-196 | an Obsidian record from a verified developer prints one Productivity block with the line "• Obsidian (v1.2.0) [Verified Dev]" |
| Report.VersionedUbuntuScenario | list_installed_apps.py:169-196 | a vUbuntu record of unknown version prints one Virtualization block whose line has no version clause |

## Left out

- The `system_profiler` call, JSON decoding and the exception handler with its error message (list_installed_apps.py:97-117): external process and parsing. The record sequence is an input, its fields already defaulted to "Unknown".
- `os.path.exists` and `os.listdir` (list_installed_apps.py:16-17): filesystem I/O. Each folder's listing is an input, and a missing folder is an empty listing.
- `print`: the output is the returned sequence of lines. A header line carries its leading newline as part of the string, as the script passes it to `print`.
- Text.Lower: ASCII letters only. Python's `str.lower()` also folds non-ASCII letters.
- Text.ReplaceAll: the contract gives length bounds and the no-occurrence case. The exact scan is pinned down by the Bundles lemmas.
- The `last_modified` field and the unused `datetime` and `Path` imports: they affect no output.
- Report.Report: its ensures covers the banner only. What follows the banner is stated by `SectionLines`, `SectionsOrder` and `SectionContents`, and is shown line by line in the scenarios.
- Classifier.Category: the `path` argument is accepted and ignored, as in the script.
- No contract says that a derived system name is free of ".app", because it is not. `Bundles.DerivedNameMayContainApp` exhibits a name that keeps one. Deleting an inner ".app" can join its neighbours into a new ".app", and the scan does not look at it again.
- Report takes the system name set as a parameter, so either `Bundles.SystemApps` (as written) or `Bundles.IntendedSystemApps` (as intended) can supply it.

## Findings

| source | as written | input that shows it | evidently intended | confidence | as-written member | corrected member |
|---|---|---|---|---|---|---|
| list_installed_apps.py:18 | `f.replace(".app", "")` deletes every ".app" in the entry, not only the trailing bundle suffix | the entry "My.apps.app" derives "Mys" | strip the trailing ".app" only, deriving "My.apps" | medium; not executed | Bundles.AsWrittenManglesInnerApp | Bundles.IntendedSystemApps |
