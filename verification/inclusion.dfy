/**
 The inclusion filter `should_include_app` and the source formatter
 `format_source`.
 */
module Inclusion {
  import opened Text
  import opened Records

  /** Applications the vendor pre-installs, excluded by exact name. */
  const ExcludedNames: set<string> := {"GarageBand", "iMovie", "Keynote", "Numbers", "Pages"}

  /** Install locations owned by the operating system. */
  const SystemPrefixes: seq<string> := ["/System/Library/", "/System/Applications/", "/Library/Apple/"]

  /** The vendor's name as a source attribution, compared lower-cased. */
  const VendorSource: string := "apple"

  /** Some prefix of `prefixes` begins `path`. */
  function HasPrefixAmong(path: string, prefixes: seq<string>): (r: bool)
    ensures r <==> exists k :: 0 <= k < |prefixes| && StartsWith(path, prefixes[k])
  {
    if |prefixes| == 0 then false
    else if StartsWith(path, prefixes[0]) then true
    else
      var r := HasPrefixAmong(path, prefixes[1..]);
      assert forall k :: 1 <= k < |prefixes| ==> prefixes[1..][k - 1] == prefixes[k];
      r
  }

  /**
   `should_include_app(app)`: the three exclusion tests in the source's order;
   an application is kept only when none of them fires.
   */
  function ShouldInclude(app: AppRecord): (r: bool)
    ensures !r <==>
              || app.name in ExcludedNames
              || Lower(app.source) == VendorSource
              || exists k :: 0 <= k < |SystemPrefixes| && StartsWith(app.path, SystemPrefixes[k])
  {
    if app.name in ExcludedNames then false
    else if Lower(app.source) == VendorSource then false
    else if HasPrefixAmong(app.path, SystemPrefixes) then false
    else true
  }

  /** The user's applications folder lies under none of the system prefixes. */
  lemma ApplicationsFolderIsNotSystem(path: string)
    requires StartsWith(path, "/Applications/")
    ensures !exists k :: 0 <= k < |SystemPrefixes| && StartsWith(path, SystemPrefixes[k])
  {
    assert path[1] == 'A';
    forall k | 0 <= k < |SystemPrefixes|
      ensures !StartsWith(path, SystemPrefixes[k])
    {
      assert SystemPrefixes[k][1] != 'A';
    }
  }

  /** Display labels for the lower-cased source attributions the script knows. */
  const SourceLabels: map<string, string> := map[
    "mac_app_store" := "App Store",
    "identified_developer" := "Verified Dev",
    "unknown" := "Unknown",
    "apple" := "Apple"
  ]

  /**
   `format_source(source)`: the label of the lower-cased attribution, or the
   attribution itself, NOT lower-cased, when it has no label.
   */
  function FormatSource(source: string): (r: string)
    ensures Lower(source) in SourceLabels ==> r == SourceLabels[Lower(source)]
    ensures Lower(source) !in SourceLabels ==> r == source
  {
    if Lower(source) in SourceLabels then SourceLabels[Lower(source)] else source
  }

  /**
   The label "Apple" comes out exactly for the attributions that lower-case to
   "apple": an unlabelled attribution spelled "Apple" is impossible, since it
   would lower-case to a labelled one.
   */
  lemma FormatsAsAppleIffVendor(source: string)
    ensures FormatSource(source) == "Apple" <==> Lower(source) == VendorSource
  {
    assert Lower("Apple") == VendorSource;
  }

  lemma VerifiedDevLabel(source: string)
    requires source == "identified_developer"
    ensures FormatSource(source) == "Verified Dev"
  {
    assert Lower(source) == source;
  }

  lemma UnknownLabel(source: string)
    requires source == "unknown"
    ensures FormatSource(source) == Unknown
  {
    assert Lower(source) == source;
  }

  /** Every display is left as it is by the formatter. */
  lemma LabelIsFixedPoint(display: string)
    requires display in ["App Store", "Verified Dev", "Unknown", "Apple"]
    ensures FormatSource(display) == display
  {
    if display == "App Store" {
      assert Lower(display) == "app store";
    } else if display == "Verified Dev" {
      assert Lower(display) == "verified dev";
    } else if display == "Unknown" {
      assert Lower(display) == "unknown";
    } else {
      assert Lower(display) == "apple";
    }
  }

  /** Formatting is idempotent: a formatted source, formatted again, is itself. */
  lemma FormatSourceIdempotent(source: string)
    ensures FormatSource(FormatSource(source)) == FormatSource(source)
  {
    if Lower(source) in SourceLabels {
      var l := Lower(source);
      assert SourceLabels[l] in ["App Store", "Verified Dev", "Unknown", "Apple"];
      LabelIsFixedPoint(SourceLabels[l]);
    }
  }

  /** A record attributed to the vendor, in any letter case, is never included. */
  lemma VendorRecordExcluded(app: AppRecord)
    requires FormatSource(app.source) == "Apple"
    ensures !ShouldInclude(app)
  {
    FormatsAsAppleIffVendor(app.source);
  }
}
