/** The changelog maintainer: a manager object holding the text of CHANGELOG.md, which adds entries to
    the Unreleased block, turns that block into a dated release, validates the document and reports
    the latest version heading. */
module Changelog {
  import opened Text
  import opened Results
  import opened Versions

  /** The entry kinds `add_entry` accepts, lower-cased. */
  const EntryTypes: seq<string> := ["added", "changed", "deprecated", "removed", "fixed", "security"]

  /** The subsection headings of a release, as `create_release` looks for them. */
  const ChangeKinds: seq<string> := ["Added", "Changed", "Deprecated", "Removed", "Fixed", "Security"]

  // ---------------------------------------------------------------- the Unreleased block

  /** A `]` occurs somewhere at or after `x`. */
  predicate CloseAfter(c: string, x: nat) {
    exists k | x <= k < |c| :: c[k] == ']'
  }

  /** `## \[.*?\]` matches at `q`: a `## [` with a `]` somewhere after it. */
  predicate HeadingAt(c: string, q: nat) {
    OccursAt(c, "## [", q) && CloseAfter(c, q + 4)
  }

  /** `## \[.*?\]|---` matches at `q`. */
  predicate AddStopAt(c: string, q: nat) {
    HeadingAt(c, q) || OccursAt(c, "---", q)
  }

  /** Where the lazy group of `(## \[Unreleased\].*?)(## \[.*?\]|---|\Z)` stops when it may stop
      from `from` on: the first heading or rule, or the end of the text. */
  function AddBlockEnd(c: string, from: nat): (q: nat)
    requires from <= |c|
    decreases |c| - from
    ensures from <= q <= |c|
    ensures q == |c| || AddStopAt(c, q)
    ensures forall x :: from <= x < q ==> !AddStopAt(c, x)
  {
    if from == |c| || AddStopAt(c, from) then from else AddBlockEnd(c, from + 1)
  }

  /** Where the lazy group of `(## \[Unreleased\].*?)(## \[.*?\])` stops when it may stop from
      `from` on: the first heading, if there is one. */
  function ReleaseBlockEnd(c: string, from: nat): (r: Option<nat>)
    decreases |c| - from
    ensures r.Some? ==> from <= r.value && HeadingAt(c, r.value)
    ensures r.Some? ==> forall x :: from <= x < r.value ==> !HeadingAt(c, x)
    ensures r.None? ==> forall x :: from <= x ==> !HeadingAt(c, x)
  {
    if |c| <= from then None
    else if HeadingAt(c, from) then Some(from)
    else ReleaseBlockEnd(c, from + 1)
  }

  // ---------------------------------------------------------------- add_entry

  /** Where the lazy group of `(### T.*?)(\n### |\n## |\Z)` stops in the section `s`. */
  function SubsectionEnd(s: string, from: nat): (e: nat)
    requires from <= |s|
    decreases |s| - from
    ensures from <= e <= |s|
    ensures e == |s| || OccursAt(s, "\n### ", e) || OccursAt(s, "\n## ", e)
    ensures forall x :: from <= x < e ==> !OccursAt(s, "\n### ", x) && !OccursAt(s, "\n## ", x)
  {
    if from == |s| || OccursAt(s, "\n### ", from) || OccursAt(s, "\n## ", from) then from
    else SubsectionEnd(s, from + 1)
  }

  /** The line `add_entry` writes for `message`. */
  function ItemLine(message: string): string {
    "- " + message + "\n"
  }

  /** The subsection `add_entry` opens for a kind the section does not have yet. */
  function NewSubsection(heading: string, message: string): string {
    "\n### " + heading + "\n" + ItemLine(message)
  }

  /** The Unreleased section once `- message` is written under `### heading`: appended to the
      subsection when there is one (every copy of that subsection's text is extended), otherwise
      in a new subsection placed before the first `\n## ` or at the end. */
  function WithEntry(section: string, heading: string, message: string): string {
    var i := FindFrom(section, "### " + heading, 0);
    if i >= 0 then AppendUnder(section, i, SubsectionEnd(section, i + |"### " + heading|), message)
    else OpenSubsection(section, heading, message)
  }

  /** The subsection that runs from `i` to `end`, its text extended with the new line; `replace`
      extends every copy of that text. */
  function AppendUnder(section: string, i: nat, end: nat, message: string): string
    requires i <= end <= |section|
  {
    ReplaceAll(section, section[i..end], section[i..end] + ItemLine(message))
  }

  /** A new subsection for `heading`, placed before the first `\n## ` of the section or at its
      end. */
  function OpenSubsection(section: string, heading: string, message: string): string {
    var at := FindOrEnd(section, "\n## ", 0);
    section[..at] + NewSubsection(heading, message) + section[at..]
  }

  /** The Unreleased section `add_entry` rewrites, for the heading found at `p`. */
  function AddSection(c: string, p: nat): string
    requires p + |UnreleasedHeading| <= |c|
  {
    c[p..AddBlockEnd(c, p + |UnreleasedHeading|)]
  }

  /** The document after `add_entry(entryType, message)`, or `None` when it reports an error: the
      kind is not one of the six, or there is no Unreleased heading. */
  function AddedEntry(c: string, entryType: string, message: string): Option<string> {
    if Lower(entryType) !in EntryTypes then None
    else
      var p := FindFrom(c, UnreleasedHeading, 0);
      if p < 0 then None
      else
        var section := AddSection(c, p);
        Some(ReplaceAll(c, section, WithEntry(section, Capitalize(entryType), message)))
  }

  // ---------------------------------------------------------------- create_release

  /** `re.search(r"### (Added|Changed|Deprecated|Removed|Fixed|Security)", s)` succeeds. */
  predicate HasChangeHeading(s: string) {
    exists kind | kind in ChangeKinds :: Contains(s, "### " + kind)
  }

  /** The heading a release of `version` on `date` gets. */
  function ReleaseHeading(version: string, date: string): string {
    "## [" + version + "] - " + date
  }

  /** The document after `create_release(version)` on `date`, or `None` when it reports an error:
      the version is malformed, the Unreleased block has no heading after it, or it holds no
      change subsection. The block is renamed to the release and a fresh empty Unreleased
      heading put before it. */
  function Released(c: string, version: string, date: string): Option<string> {
    if ParseVersion(version).Err? then None
    else
      var p := FindFrom(c, UnreleasedHeading, 0);
      if p < 0 then None
      else
        match ReleaseBlockEnd(c, p + |UnreleasedHeading|)
        case None => None
        case Some(q) =>
          var block := c[p..q];
          if !HasChangeHeading(block) then None
          else
            var release := ReplaceAll(block, UnreleasedHeading, ReleaseHeading(version, date));
            Some(ReplaceAll(c, block, "## [Unreleased]\n\n" + "\n" + release))
  }

  // ---------------------------------------------------------------- validate

  /** The issues for the four required markers, in the order they are checked. */
  function MarkerIssues(c: string): seq<string> {
    (if Contains(c, "# Changelog") then [] else ["Missing main title '# Changelog'"])
    + (if Contains(c, UnreleasedHeading) then [] else ["Missing [Unreleased] section"])
    + (if Contains(c, "Keep a Changelog") then [] else ["Missing reference to Keep a Changelog format"])
    + (if Contains(c, "Semantic Versioning") then [] else ["Missing reference to Semantic Versioning"])
  }

  /** `\d{4}-\d{2}-\d{2}` matches at `d`. */
  predicate IsDateAt(c: string, d: nat) {
    && d + 10 <= |c|
    && AllDigits(c[d..d + 4]) && c[d + 4] == '-'
    && AllDigits(c[d + 5..d + 7]) && c[d + 7] == '-'
    && AllDigits(c[d + 8..d + 10])
  }

  /** A version heading `## [x.y.z]` starts at `x`; the result is the index of its `]`. The group
      `(\d+\.\d+\.\d+)` holds no `]`, so it ends at the first `]` after `## [`. */
  function VersionHeadingAt(c: string, x: nat): (r: Option<nat>)
    ensures r.Some? ==> && OccursAt(c, "## [", x)
                        && x + 4 <= r.value < |c| && c[r.value] == ']' && ReadTriple(c[x + 4..r.value]).Some?
                        && forall k :: x + 4 <= k < r.value ==> !OccursAt(c, "]", k)
  {
    if OccursAt(c, "## [", x) then
      var k := FindFrom(c, "]", x + 4);
      if k >= 0 && ReadTriple(c[x + 4..k]).Some? then
        assert c[k..k + 1] == "]";
        Some(k)
      else None
    else None
  }

  /** A dated release heading `## [x.y.z] - YYYY-MM-DD` starts at `x`; the result is the index of
      its `]`. */
  function DatedHeadingAt(c: string, x: nat): (r: Option<nat>)
    ensures r.Some? ==> && VersionHeadingAt(c, x) == r && r.value + 14 <= |c|
                        && OccursAt(c, "] - ", r.value) && IsDateAt(c, r.value + 4)
  {
    match VersionHeadingAt(c, x)
    case None => None
    case Some(k) =>
      if OccursAt(c, "] - ", k) && IsDateAt(c, k + 4) then Some(k) else None
  }

  /** `re.findall` of the dated heading pattern from `from` on: the version of each match, the scan
      resuming after the date of each match. */
  function DatedVersionsFrom(c: string, from: nat): (vs: seq<string>)
    decreases |c| - from
    ensures forall n :: 0 <= n < |vs| ==> ReadTriple(vs[n]).Some?
  {
    if |c| <= from then []
    else
      match DatedHeadingAt(c, from)
      case None => DatedVersionsFrom(c, from + 1)
      case Some(k) => [c[from + 4..k]] + DatedVersionsFrom(c, k + 14)
  }

  function DatedVersions(c: string): (vs: seq<string>)
    ensures forall n :: 0 <= n < |vs| ==> ReadTriple(vs[n]).Some?
  {
    DatedVersionsFrom(c, 0)
  }

  /** The numbers of a version string that reads as a triple. */
  function ValueOf(s: string): Version
    requires ReadTriple(s).Some?
  {
    ReadTriple(s).value
  }

  /** `set(versions)`. */
  function Distinct(vs: seq<string>): set<string> {
    set v | v in vs
  }

  /** Two entries of `vs` are the same string. */
  predicate HasRepeat(vs: seq<string>) {
    exists i, j | 0 <= i < j < |vs| :: vs[i] == vs[j]
  }

  function OrderingIssue(cur: string, next: string): string {
    "Version ordering issue: " + cur + " should come after " + next
  }

  /** The numbers of each version string, as `[int(x) for x in v.split('.')]` reads them. */
  function VersionValues(vs: seq<string>): (r: seq<Version>)
    requires forall k :: 0 <= k < |vs| ==> ReadTriple(vs[k]).Some?
    ensures |r| == |vs|
    ensures forall k :: 0 <= k < |vs| ==> r[k] == ValueOf(vs[k])
  {
    if vs == [] then [] else [ValueOf(vs[0])] + VersionValues(vs[1..])
  }

  /** The version at `n` is older than the one before it. */
  predicate StepsDown(vals: seq<Version>, n: nat)
    requires 0 < n < |vals|
  {
    Less(vals[n], vals[n - 1])
  }

  /** The ordering issues of the first `n` neighbouring pairs: one for each pair whose first
      version is not greater than the second. */
  function OrderingIssuesUpTo(vs: seq<string>, vals: seq<Version>, n: nat): seq<string>
    requires n < |vs| == |vals|
  {
    if n == 0 then []
    else
      OrderingIssuesUpTo(vs, vals, n - 1)
      + (if StepsDown(vals, n) then [] else [OrderingIssue(vs[n - 1], vs[n])])
  }

  function OrderingIssues(vs: seq<string>): seq<string>
    requires forall k :: 0 <= k < |vs| ==> ReadTriple(vs[k]).Some?
  {
    if vs == [] then [] else OrderingIssuesUpTo(vs, VersionValues(vs), |vs| - 1)
  }

  /** The issues `validate` reports for a changelog that exists (`onDisk`) with text `c`. */
  function ValidationIssues(onDisk: bool, c: string): seq<string> {
    if !onDisk then ["CHANGELOG.md file does not exist"]
    else
      var vs := DatedVersions(c);
      MarkerIssues(c) + (if |Distinct(vs)| != |vs| then ["Duplicate version numbers found"] else []) + OrderingIssues(vs)
  }

  /** The ordering check of `validate`: the issues of every neighbouring pair of the versions. */
  method CheckOrdering(vs: seq<string>) returns (issues: seq<string>)
    requires forall k :: 0 <= k < |vs| ==> ReadTriple(vs[k]).Some?
    ensures issues == OrderingIssues(vs)
  {
    issues := [];
    if vs != [] {
      issues := CheckPairs(vs, VersionValues(vs));
    }
  }

  /** The loop over neighbouring pairs in `validate`, given the numbers of each version. */
  method CheckPairs(vs: seq<string>, vals: seq<Version>) returns (issues: seq<string>)
    requires 0 < |vs| == |vals|
    ensures issues == OrderingIssuesUpTo(vs, vals, |vs| - 1)
  {
    issues := [];
    for i := 0 to |vs| - 1
      invariant issues == OrderingIssuesUpTo(vs, vals, i)
    {
      if !StepsDown(vals, i + 1) {
        issues := issues + [OrderingIssue(vs[i], vs[i + 1])];
      }
    }
  }

  // ---------------------------------------------------------------- get_latest_version

  /** The first version heading at or after `from`: the version text between its brackets. */
  function FirstVersionHeading(c: string, from: nat): (r: Option<string>)
    decreases |c| - from
    ensures r.Some? ==> ReadTriple(r.value).Some?
  {
    if |c| <= from then None
    else
      match VersionHeadingAt(c, from)
      case Some(k) => Some(c[from + 4..k])
      case None => FirstVersionHeading(c, from + 1)
  }

  // ---------------------------------------------------------------- the manager

  class ChangelogManager {
    /** The text of CHANGELOG.md as read at construction or last written. */
    var content: string
    /** Whether CHANGELOG.md exists. */
    var onDisk: bool

    /** Reads the file if it exists (`file` is its text); an absent file leaves the text empty. */
    constructor(file: Option<string>)
      ensures onDisk == file.Some?
      ensures content == (if file.Some? then file.value else "")
    {
      onDisk := file.Some?;
      content := if file.Some? then file.value else "";
    }

    /** `add_entry`: on success the new text is written back to the file. */
    method AddEntry(entryType: string, message: string) returns (ok: bool)
      modifies this
      ensures ok == AddedEntry(old(content), entryType, message).Some?
      ensures ok ==> content == AddedEntry(old(content), entryType, message).value && onDisk
      ensures !ok ==> content == old(content) && onDisk == old(onDisk)
    {
      if Lower(entryType) !in EntryTypes {
        return false;
      }
      var heading := Capitalize(entryType);
      var p := FindFrom(content, UnreleasedHeading, 0);
      if p < 0 {
        return false;
      }
      var section := AddSection(content, p);
      var updated := WithEntry(section, heading, message);
      content := ReplaceAll(content, section, updated);
      onDisk := true;
      ok := true;
    }

    /** `create_release(version)` on `date`: on success the new text is written back to the file. */
    method CreateRelease(version: string, date: string) returns (ok: bool)
      modifies this
      ensures ok == Released(old(content), version, date).Some?
      ensures ok ==> content == Released(old(content), version, date).value && onDisk
      ensures !ok ==> content == old(content) && onDisk == old(onDisk)
    {
      if ParseVersion(version).Err? {
        return false;
      }
      var p := FindFrom(content, UnreleasedHeading, 0);
      if p < 0 {
        return false;
      }
      var q := ReleaseBlockEnd(content, p + |UnreleasedHeading|);
      if q.None? {
        return false;
      }
      var block := content[p..q.value];
      if !HasChangeHeading(block) {
        return false;
      }
      var release := ReplaceAll(block, UnreleasedHeading, ReleaseHeading(version, date));
      content := ReplaceAll(content, block, "## [Unreleased]\n\n" + "\n" + release);
      onDisk := true;
      ok := true;
    }

    /** `validate`: the issues found, in the order they are reported. */
    method Validate() returns (issues: seq<string>)
      ensures issues == ValidationIssues(onDisk, content)
    {
      if !onDisk {
        return ["CHANGELOG.md file does not exist"];
      }
      var vs := DatedVersions(content);
      var ordering := CheckOrdering(vs);
      issues := MarkerIssues(content) + (if |Distinct(vs)| != |vs| then ["Duplicate version numbers found"] else []) + ordering;
    }

    /** `get_latest_version`: the version of the first `## [x.y.z]` heading, or "0.0.0". */
    function LatestVersion(): (v: string)
      reads this
      ensures ReadTriple(v).Some?
      ensures FirstVersionHeading(content, 0).Some? ==> v == FirstVersionHeading(content, 0).value
      ensures FirstVersionHeading(content, 0).None? ==> v == "0.0.0"
    {
      match FirstVersionHeading(content, 0)
      case Some(s) => s
      case None => ReadTripleAccepts("0.0.0", 1, 3); "0.0.0"
    }
  }
}
