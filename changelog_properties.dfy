/** What the changelog maintainer's operations guarantee, alone and together: what validation
    accepts, where an entry lands, what a release leaves behind, and how a release meets the
    version scan and the change analysis. */
module ChangelogProperties {
  import opened Text
  import opened Results
  import opened Versions
  import opened ChangeAnalysis
  import opened Changelog
  import opened Scan

  // ---------------------------------------------------------------- validate

  /** Each missing marker is reported by its own message, and only then; so the marker check
      reports nothing exactly when all four markers are present. */
  lemma MarkersComplete(c: string)
    ensures |MarkerIssues(c)| <= 4
    ensures "Missing main title '# Changelog'" in MarkerIssues(c) <==> !Contains(c, "# Changelog")
    ensures "Missing [Unreleased] section" in MarkerIssues(c) <==> !Contains(c, UnreleasedHeading)
    ensures "Missing reference to Keep a Changelog format" in MarkerIssues(c) <==> !Contains(c, "Keep a Changelog")
    ensures "Missing reference to Semantic Versioning" in MarkerIssues(c) <==> !Contains(c, "Semantic Versioning")
    ensures MarkerIssues(c) == [] <==>
      && Contains(c, "# Changelog") && Contains(c, UnreleasedHeading)
      && Contains(c, "Keep a Changelog") && Contains(c, "Semantic Versioning")
  {
  }

  /** Every neighbouring pair of the versions is in strictly decreasing order: newest first. */
  predicate StrictlyDescending(vals: seq<Version>) {
    forall i :: 0 < i < |vals| ==> StepsDown(vals, i)
  }

  /** The first `n` pairs raise no ordering issue exactly when each of them is decreasing. */
  lemma {:induction false} OrderingIssuesUpToEmpty(vs: seq<string>, vals: seq<Version>, n: nat)
    requires n < |vs| == |vals|
    ensures OrderingIssuesUpTo(vs, vals, n) == [] <==> forall i :: 0 < i <= n ==> StepsDown(vals, i)
  {
    if n > 0 {
      OrderingIssuesUpToEmpty(vs, vals, n - 1);
    }
  }

  /** The ordering check reports nothing exactly when the versions are newest first. */
  lemma OrderingIssuesEmpty(vs: seq<string>)
    requires forall k :: 0 <= k < |vs| ==> ReadTriple(vs[k]).Some?
    ensures OrderingIssues(vs) == [] <==> StrictlyDescending(VersionValues(vs))
  {
    if vs != [] {
      var vals := VersionValues(vs);
      assert OrderingIssues(vs) == OrderingIssuesUpTo(vs, vals, |vs| - 1);
      OrderingIssuesUpToEmpty(vs, vals, |vs| - 1);
    }
  }

  /** In a newest-first list every version is older than every one before it. */
  lemma {:induction false} DescendingApart(vals: seq<Version>, i: nat, j: nat)
    requires StrictlyDescending(vals) && i < j < |vals|
    ensures Less(vals[j], vals[i])
    decreases j - i
  {
    assert StepsDown(vals, j);
    if i + 1 < j {
      DescendingApart(vals, i, j - 1);
      LessTransitive(vals[j], vals[j - 1], vals[i]);
    }
  }

  /** A newest-first list names no version twice, so the duplicate check is implied by the
      ordering check. */
  lemma DescendingHasNoRepeat(vs: seq<string>)
    requires forall k :: 0 <= k < |vs| ==> ReadTriple(vs[k]).Some?
    requires StrictlyDescending(VersionValues(vs))
    ensures !HasRepeat(vs)
  {
    var vals := VersionValues(vs);
    forall i, j | 0 <= i < j < |vs|
      ensures vs[i] != vs[j]
    {
      DescendingApart(vals, i, j);
      assert vals[i] == ValueOf(vs[i]) && vals[j] == ValueOf(vs[j]);
    }
  }

  /** A list with one more version at its end repeats a version exactly when the list did or
      the new version was already in it. */
  lemma RepeatAppend(front: seq<string>, last: string)
    ensures HasRepeat(front + [last]) <==> HasRepeat(front) || last in front
  {
    var vs := front + [last];
    if HasRepeat(vs) {
      var i, j :| 0 <= i < j < |vs| && vs[i] == vs[j];
      if j < |front| {
        assert front[i] == front[j];
      } else {
        assert front[i] == last;
      }
    }
    if HasRepeat(front) {
      var i, j :| 0 <= i < j < |front| && front[i] == front[j];
      assert vs[i] == vs[j];
    }
    if last in front {
      var i :| 0 <= i < |front| && front[i] == last;
      assert vs[i] == vs[|front|];
    }
  }

  /** `len(versions) != len(set(versions))` holds exactly when some version is listed twice. */
  lemma {:induction false} DistinctCount(vs: seq<string>)
    ensures |Distinct(vs)| <= |vs|
    ensures |Distinct(vs)| != |vs| <==> HasRepeat(vs)
  {
    if vs != [] {
      var front := vs[..|vs| - 1];
      var last := vs[|vs| - 1];
      DistinctCount(front);
      assert vs == front + [last];
      assert Distinct(vs) == Distinct(front) + {last};
      RepeatAppend(front, last);
    }
  }

  /** A changelog that exists validates cleanly exactly when it has the four markers and its dated
      versions are newest first. */
  lemma ValidExactly(c: string)
    ensures ValidationIssues(true, c) == [] <==>
      && MarkerIssues(c) == []
      && StrictlyDescending(VersionValues(DatedVersions(c)))
  {
    var vs := DatedVersions(c);
    OrderingIssuesEmpty(vs);
    DistinctCount(vs);
    if StrictlyDescending(VersionValues(vs)) {
      DescendingHasNoRepeat(vs);
    }
  }

  // ---------------------------------------------------------------- the dated headings validate reads

  /** The dated heading pattern as a matcher: a match at `x` ends just after its date. */
  function DatedSpan(c: string, x: nat): Option<nat> {
    match DatedHeadingAt(c, x)
    case Some(k) => Some(k + 14)
    case None => None
  }

  function DatedMatcher(c: string): Matcher {
    (x: nat) => DatedSpan(c, x)
  }

  /** The group the dated heading pattern captures at `x`: the version between `## [` and `]`. */
  function DatedVersionAt(c: string, x: nat): string {
    match DatedHeadingAt(c, x)
    case Some(k) => c[x + 4..k]
    case None => []
  }

  function DatedVersionOf(c: string): nat -> string {
    (x: nat) => DatedVersionAt(c, x)
  }

  /** The versions `DatedVersionsFrom` collects are what `findall` of the dated heading pattern
      returns from `from` on: the leftmost dated heading, then the leftmost one after its date, and
      so on, each giving its version, with no dated heading after the last. */
  lemma {:induction false} DatedVersionsScan(c: string, from: nat)
    decreases |c| - from, 1
    ensures exists xs :: FindAll(DatedMatcher(c), DatedVersionOf(c), from, |c|, xs, DatedVersionsFrom(c, from))
  {
    if |c| <= from {
      FindAllNone(DatedMatcher(c), DatedVersionOf(c), from, |c|);
      assert DatedVersionsFrom(c, from) == [];
    } else if DatedHeadingAt(c, from).None? {
      DatedScanPast(c, from);
    } else {
      DatedScanOver(c, from);
    }
  }

  /** The scan from a position where no dated heading starts. */
  lemma {:induction false} DatedScanPast(c: string, from: nat)
    requires from < |c| && DatedHeadingAt(c, from).None?
    decreases |c| - from, 0
    ensures exists xs :: FindAll(DatedMatcher(c), DatedVersionOf(c), from, |c|, xs, DatedVersionsFrom(c, from))
  {
    DatedVersionsScan(c, from + 1);
    var xs :| FindAll(DatedMatcher(c), DatedVersionOf(c), from + 1, |c|, xs, DatedVersionsFrom(c, from + 1));
    DatedScanSkip(c, from, xs);
  }

  /** The scan from a position where a dated heading starts. */
  lemma {:induction false} DatedScanOver(c: string, from: nat)
    requires from < |c| && DatedHeadingAt(c, from).Some?
    decreases |c| - from, 0
    ensures exists xs :: FindAll(DatedMatcher(c), DatedVersionOf(c), from, |c|, xs, DatedVersionsFrom(c, from))
  {
    var e := DatedHeadingAt(c, from).value + 14;
    DatedVersionsScan(c, e);
    var xs :| FindAll(DatedMatcher(c), DatedVersionOf(c), e, |c|, xs, DatedVersionsFrom(c, e));
    DatedScanCons(c, from, xs);
  }

  /** The scan step past a position where no dated heading starts. */
  lemma DatedScanSkip(c: string, from: nat, xs: seq<nat>)
    requires from < |c| && DatedHeadingAt(c, from).None?
    requires FindAll(DatedMatcher(c), DatedVersionOf(c), from + 1, |c|, xs, DatedVersionsFrom(c, from + 1))
    ensures FindAll(DatedMatcher(c), DatedVersionOf(c), from, |c|, xs, DatedVersionsFrom(c, from))
  {
    assert DatedMatcher(c)(from) == None;
    FindAllSkipTo(DatedMatcher(c), DatedVersionOf(c), from, from + 1, |c|, xs, DatedVersionsFrom(c, from + 1));
    DatedVersionsStep(c, from);
  }

  /** The scan step over a dated heading at `from`. */
  lemma DatedScanCons(c: string, from: nat, xs: seq<nat>)
    requires from < |c| && DatedHeadingAt(c, from).Some?
    requires var e := DatedHeadingAt(c, from).value + 14;
             FindAll(DatedMatcher(c), DatedVersionOf(c), e, |c|, xs, DatedVersionsFrom(c, e))
    ensures FindAll(DatedMatcher(c), DatedVersionOf(c), from, |c|, [from] + xs, DatedVersionsFrom(c, from))
  {
    var m, v := DatedMatcher(c), DatedVersionOf(c);
    var e := DatedHeadingAt(c, from).value + 14;
    assert m(from).Some? && NextFrom(m, from) == e;
    DatedVersionsStep(c, from);
    FindAllCons(m, v, from, |c|, xs, DatedVersionsFrom(c, e));
  }

  /** One step of `DatedVersionsFrom` inside the text. */
  lemma DatedVersionsStep(c: string, from: nat)
    requires from < |c|
    ensures DatedVersionsFrom(c, from) == match DatedHeadingAt(c, from)
      case None => DatedVersionsFrom(c, from + 1)
      case Some(k) => [DatedVersionOf(c)(from)] + DatedVersionsFrom(c, k + 14)
  {
  }

  /** Dated headings end after they start. */
  lemma DatedMatcherAdvances(c: string)
    ensures Advances(DatedMatcher(c))
  {
    forall x: nat | DatedMatcher(c)(x).Some?
      ensures x < DatedMatcher(c)(x).value
    {
      assert DatedHeadingAt(c, x).Some?;
    }
  }

  /** The versions come from dated headings at or after `from`, in the order of the text. */
  lemma DatedVersionsInOrder(c: string, from: nat)
    ensures exists xs ::
              && FindAll(DatedMatcher(c), DatedVersionOf(c), from, |c|, xs, DatedVersionsFrom(c, from))
              && (forall k :: 0 <= k < |xs| ==> from <= xs[k])
              && (forall k :: 0 < k < |xs| ==> xs[k - 1] < xs[k])
  {
    DatedVersionsScan(c, from);
    var xs :| FindAll(DatedMatcher(c), DatedVersionOf(c), from, |c|, xs, DatedVersionsFrom(c, from));
    DatedMatcherAdvances(c);
    FindAllIncrease(DatedMatcher(c), DatedVersionOf(c), from, |c|, xs, DatedVersionsFrom(c, from));
  }

  /** Every dated heading at or after `from` contributes its version. */
  lemma DatedVersionsComplete(c: string, from: nat, x: nat)
    requires from <= x && DatedHeadingAt(c, x).Some?
    ensures DatedVersionAt(c, x) in DatedVersionsFrom(c, from)
  {
    var m, v := DatedMatcher(c), DatedVersionOf(c);
    DatedVersionsScan(c, from);
    var xs :| FindAll(m, v, from, |c|, xs, DatedVersionsFrom(c, from));
    forall y: nat | y < x && m(y).Some?
      ensures NextFrom(m, y) <= x
    {
      DatedHeadingsApart(c, y, x);
    }
    assert m(x).Some?;
    FindAllFinds(m, v, from, |c|, xs, DatedVersionsFrom(c, from), 0, x);
    assert DatedVersionsFrom(c, from)[0..] == DatedVersionsFrom(c, from);
  }

  /** Two dated headings do not overlap: one that starts after another starts after its date. */
  lemma DatedHeadingsApart(c: string, y: nat, x: nat)
    requires y < x && DatedHeadingAt(c, y).Some? && DatedHeadingAt(c, x).Some?
    ensures DatedHeadingAt(c, y).value + 14 <= x
  {
    DatedHeadingHashes(c, x);
    if x < DatedHeadingAt(c, y).value + 14 {
      NoHashesInside(c, y, x);
    }
  }

  /** A dated heading starts with `##`. */
  lemma DatedHeadingHashes(c: string, x: nat)
    requires DatedHeadingAt(c, x).Some?
    ensures x + 1 < |c| && c[x] == '#' && c[x + 1] == '#'
  {
    assert c[x..x + 4][0] == c[x] && c[x..x + 4][1] == c[x + 1];
  }

  /** No `##` starts inside a dated heading after its first character. */
  lemma NoHashesInside(c: string, y: nat, x: nat)
    requires DatedHeadingAt(c, y).Some? && y < x < DatedHeadingAt(c, y).value + 14 && x + 1 < |c|
    ensures c[x] != '#' || c[x + 1] != '#'
  {
    NoHeadingInside(c, y, DatedHeadingAt(c, y).value, x);
  }

  /** Inside a dated heading no `##` starts after its first character. */
  lemma NoHeadingInside(c: string, y: nat, k: nat, x: nat)
    requires OccursAt(c, "## [", y) && y + 4 <= k && k + 14 <= |c| && ReadTriple(c[y + 4..k]).Some?
    requires OccursAt(c, "] - ", k) && IsDateAt(c, k + 4)
    requires y < x < k + 14 && x + 1 < |c|
    ensures c[x] != '#' || c[x + 1] != '#'
  {
    assert c[y..y + 4][1] == c[y + 1] && c[y..y + 4][2] == c[y + 2] && c[y..y + 4][3] == c[y + 3];
    if y + 4 <= x < k {
      TripleChars(c[y + 4..k]);
      assert c[y + 4..k][x - y - 4] == c[x];
    } else if k <= x < k + 4 {
      assert c[k..k + 4][x - k] == c[x];
    } else if k + 4 <= x {
      DateChars(c, k + 4, x);
    }
  }

  /** A version holds only digits and dots. */
  lemma TripleChars(s: string)
    requires ReadTriple(s).Some?
    ensures forall k :: 0 <= k < |s| ==> IsDigit(s[k]) || s[k] == '.'
  {
    ReadTripleSplits(s);
    var i: nat, j: nat :| SplitsAt(s, i, j);
    forall k | 0 <= k < |s|
      ensures IsDigit(s[k]) || s[k] == '.'
    {
      if k < i {
        assert s[..i][k] == s[k];
      } else if i < k < j {
        assert s[i + 1..j][k - i - 1] == s[k];
      } else if j < k {
        assert s[j + 1..][k - j - 1] == s[k];
      }
    }
  }

  /** A date holds only digits and dashes. */
  lemma DateChars(c: string, d: nat, x: nat)
    requires IsDateAt(c, d) && d <= x < d + 10
    ensures IsDigit(c[x]) || c[x] == '-'
  {
    if x < d + 4 {
      assert c[d..d + 4][x - d] == c[x];
    } else if d + 4 < x < d + 7 {
      assert c[d + 5..d + 7][x - d - 5] == c[x];
    } else if d + 7 < x {
      assert c[d + 8..d + 10][x - d - 8] == c[x];
    }
  }

  // ---------------------------------------------------------------- add_entry

  /** `add_entry` fails exactly for an unknown kind or a changelog without an Unreleased heading. */
  lemma AddEntryFailures(c: string, entryType: string, message: string)
    ensures AddedEntry(c, entryType, message).None? <==>
      Lower(entryType) !in EntryTypes || !Contains(c, UnreleasedHeading)
  {
    FindContains(c, UnreleasedHeading);
  }

  /** `str.lower` keeps its place in a suffix. */
  lemma LowerTail(s: string)
    requires s != []
    ensures Lower(s[1..]) == Lower(s)[1..]
  {
  }

  /** `capitalize` reads its argument only through its lower-cased form. */
  lemma CapitalizeOfLower(s: string)
    requires s != []
    ensures Capitalize(s) == [UpperChar(Lower(s)[0])] + Lower(s)[1..]
  {
    LowerTail(s);
    assert UpperChar(s[0]) == UpperChar(LowerChar(s[0]));
  }

  /** Two spellings of a kind that differ only in case get the same heading. */
  lemma CapitalizeIgnoresCase(s: string, t: string)
    requires Lower(s) == Lower(t)
    ensures Capitalize(s) == Capitalize(t)
  {
    if s != [] {
      CapitalizeOfLower(s);
      CapitalizeOfLower(t);
    }
  }

  /** The capitalised form of a lower-case kind name is the matching heading. */
  lemma KindCapitalized(k: nat)
    requires k < 6
    ensures |EntryTypes[k]| > 0 && [UpperChar(EntryTypes[k][0])] + EntryTypes[k][1..] == ChangeKinds[k]
  {
    var low, name := EntryTypes[k], ChangeKinds[k];
    assert name[0] == UpperChar(low[0]);
    assert name[1..] == low[1..];
  }

  /** An accepted kind, in whatever case, gets one of the six headings `create_release` looks
      for. */
  lemma CanonicalHeading(entryType: string)
    requires Lower(entryType) in EntryTypes
    ensures Capitalize(entryType) in ChangeKinds
  {
    var k :| 0 <= k < 6 && EntryTypes[k] == Lower(entryType);
    KindCapitalized(k);
    CapitalizeOfLower(entryType);
  }

  /** The changelog has exactly one Unreleased heading, at `p`. */
  ghost predicate SoleUnreleased(c: string, p: nat) {
    OccursOnlyAt(c, UnreleasedHeading, p)
  }

  /** What `add_entry` computes once the kind is accepted and the heading found at `p`. */
  lemma AddedSteps(c: string, entryType: string, message: string, p: nat)
    requires Lower(entryType) in EntryTypes && SoleUnreleased(c, p)
    ensures AddedEntry(c, entryType, message)
            == Some(ReplaceAll(c, AddSection(c, p), WithEntry(AddSection(c, p), Capitalize(entryType), message)))
  {
    OnlyAtFound(c, UnreleasedHeading, p);
  }

  /** A stretch that starts with a text occurring only once occurs only once itself. */
  lemma StretchUnique(s: string, pat: string, i: nat, e: nat)
    requires OccursOnlyAt(s, pat, i) && i + |pat| <= e <= |s|
    ensures OccursOnlyAt(s, s[i..e], i)
  {
    assert s[i..e][..|pat|] == pat;
    assert OccursAt(s, s[i..e], i);
    UniqueByPrefix(s, s[i..e], |pat|, i);
  }

  /** Extending a stretch that starts with a once-only text, by `replace`, inserts at its end. */
  lemma AppendToStretch(s: string, pat: string, i: nat, e: nat, ins: string)
    requires OccursOnlyAt(s, pat, i) && i + |pat| <= e <= |s| && pat != []
    ensures ReplaceAll(s, s[i..e], s[i..e] + ins) == s[..e] + ins + s[e..]
  {
    StretchUnique(s, pat, i, e);
    ReplaceUnique(s, s[i..e], s[i..e] + ins, i);
    Splice(s, i, e, ins);
  }

  /** Appending to a stretch in place is inserting at its end. */
  lemma Splice(s: string, i: nat, e: nat, ins: string)
    requires i <= e <= |s|
    ensures s[..i] + (s[i..e] + ins) + s[e..] == s[..e] + ins + s[e..]
  {
    assert s[..i] + s[i..e] == s[..e];
  }

  /** Extending the subsection whose heading, occurring only at `i`, is `marker` and which ends
      at `e`: the line goes in at `e`. */
  lemma AppendUnderSole(section: string, marker: string, i: nat, e: nat, message: string)
    requires OccursOnlyAt(section, marker, i) && marker != []
    requires e == SubsectionEnd(section, i + |marker|)
    ensures AppendUnder(section, i, e, message) == section[..e] + ItemLine(message) + section[e..]
  {
    AppendToStretch(section, marker, i, e, ItemLine(message));
  }

  /** Once the heading is found at `i`, the subsection under it is extended. */
  lemma WithEntryFound(section: string, heading: string, message: string, i: nat)
    requires FindFrom(section, "### " + heading, 0) == i
    ensures WithEntry(section, heading, message)
            == AppendUnder(section, i, SubsectionEnd(section, i + |"### " + heading|), message)
  {
  }

  /** A section whose only `### <heading>` is at `i`, in a subsection ending at `e`, gets the line
      at `e`. */
  lemma WithEntryExisting(section: string, heading: string, message: string, i: nat, e: nat)
    requires OccursOnlyAt(section, "### " + heading, i)
    requires e == SubsectionEnd(section, i + |"### " + heading|)
    ensures WithEntry(section, heading, message) == section[..e] + ItemLine(message) + section[e..]
  {
    OnlyAtFound(section, "### " + heading, i);
    WithEntryFound(section, heading, message, i);
    AppendUnderSole(section, "### " + heading, i, e, message);
  }

  /** A section without `### <heading>` gets a new subsection at `at`, the first `\n## ` or the
      end. */
  lemma WithEntryNew(section: string, heading: string, message: string, at: nat)
    requires !Contains(section, "### " + heading)
    requires at == FindOrEnd(section, "\n## ", 0)
    ensures WithEntry(section, heading, message) == section[..at] + NewSubsection(heading, message) + section[at..]
  {
    FindContains(section, "### " + heading);
  }

  /** Putting a rewritten section back into the document. */
  lemma InsertInBlock(c: string, p: nat, q: nat, k: nat, ins: string)
    requires p <= p + k <= q <= |c|
    ensures c[..p] + (c[p..q][..k] + ins + c[p..q][k..]) + c[q..] == c[..p + k] + ins + c[p + k..]
  {
    assert c[..p] + c[p..q][..k] == c[..p + k];
    assert c[p..q][k..] + c[q..] == c[p + k..];
  }

  /** When the section rewrite is an insertion, so is the whole `add_entry`. */
  lemma AddedInserts(c: string, entryType: string, message: string, p: nat, e: nat, ins: string)
    requires Lower(entryType) in EntryTypes && SoleUnreleased(c, p)
    requires e <= |AddSection(c, p)|
    requires WithEntry(AddSection(c, p), Capitalize(entryType), message)
             == AddSection(c, p)[..e] + ins + AddSection(c, p)[e..]
    ensures AddedEntry(c, entryType, message) == Some(c[..p + e] + ins + c[p + e..])
  {
    var section := AddSection(c, p);
    var q := AddBlockEnd(c, p + 15);
    AddedSteps(c, entryType, message, p);
    ReplaceSoleBlock(c, p, q, section[..e] + ins + section[e..]);
    InsertInBlock(c, p, q, e, ins);
  }

  /** With a single Unreleased heading, whose section has a single `### <Kind>` subsection (at
      `i`, ending at `e`), an entry of that kind is inserted as one line at the end of that
      subsection, and nothing else changes. */
  lemma AddEntryAppends(c: string, entryType: string, message: string, p: nat, i: nat, e: nat)
    requires Lower(entryType) in EntryTypes && SoleUnreleased(c, p)
    requires OccursOnlyAt(AddSection(c, p), "### " + Capitalize(entryType), i)
    requires e == SubsectionEnd(AddSection(c, p), i + |"### " + Capitalize(entryType)|)
    ensures AddedEntry(c, entryType, message) == Some(c[..p + e] + ItemLine(message) + c[p + e..])
  {
    WithEntryExisting(AddSection(c, p), Capitalize(entryType), message, i, e);
    AddedInserts(c, entryType, message, p, e, ItemLine(message));
  }

  /** With a single Unreleased heading, an entry of a kind the section lacks opens a new
      subsection, placed at `at`: before the first `\n## ` of the section or at its end; nothing
      else changes. */
  lemma AddEntryOpensSubsection(c: string, entryType: string, message: string, p: nat, at: nat)
    requires Lower(entryType) in EntryTypes && SoleUnreleased(c, p)
    requires !Contains(AddSection(c, p), "### " + Capitalize(entryType))
    requires at == FindOrEnd(AddSection(c, p), "\n## ", 0)
    ensures AddedEntry(c, entryType, message)
            == Some(c[..p + at] + NewSubsection(Capitalize(entryType), message) + c[p + at..])
  {
    WithEntryNew(AddSection(c, p), Capitalize(entryType), message, at);
    AddedInserts(c, entryType, message, p, at, NewSubsection(Capitalize(entryType), message));
  }

  // ---------------------------------------------------------------- create_release

  /** What a release leaves in place of the Unreleased heading: a fresh empty Unreleased heading,
      two blank lines, and the release heading over the former Unreleased entries. */
  const FreshUnreleased := "## [Unreleased]\n\n\n"

  /** The document a release of `version` on `date` produces from one whose only Unreleased heading
      is at `p`. */
  function AfterRelease(c: string, p: nat, version: string, date: string): string
    requires p + |UnreleasedHeading| <= |c|
  {
    c[..p] + FreshUnreleased + ReleaseHeading(version, date) + c[p + |UnreleasedHeading|..]
  }

  /** A search that stops at the first heading from `from` stops at `q`. */
  lemma ReleaseBlockEndAt(c: string, from: nat, q: nat)
    requires from <= q && HeadingAt(c, q) && forall x :: from <= x < q ==> !HeadingAt(c, x)
    ensures ReleaseBlockEnd(c, from) == Some(q)
  {
  }

  /** What a successful release computes, step by step. */
  lemma ReleasedSteps(c: string, version: string, date: string, p: nat)
    requires Released(c, version, date).Some? && FindFrom(c, UnreleasedHeading, 0) == p
    ensures p + 15 <= |c| && ReleaseBlockEnd(c, p + 15).Some?
    ensures Released(c, version, date).value
            == ReplaceAll(c, c[p..ReleaseBlockEnd(c, p + 15).value],
                          "## [Unreleased]\n\n" + "\n"
                          + ReplaceAll(c[p..ReleaseBlockEnd(c, p + 15).value], UnreleasedHeading, ReleaseHeading(version, date)))
  {
  }

  /** The block `create_release` takes: from the first Unreleased heading, at `p`, up to the first
      `## [...]` heading after it, at `q`. */
  ghost predicate ReleaseBlockAt(c: string, p: nat, q: nat) {
    && FindFrom(c, UnreleasedHeading, 0) == p
    && p + |UnreleasedHeading| <= q && HeadingAt(c, q)
    && forall x :: p + |UnreleasedHeading| <= x < q ==> !HeadingAt(c, x)
  }

  /** `create_release` succeeds exactly when the version is well formed, an Unreleased heading is
      followed by a `## [...]` heading, and the block between them holds a change subsection; it
      fails in particular without an Unreleased heading. */
  lemma ReleaseConditions(c: string, version: string, date: string)
    ensures Released(c, version, date).Some? <==>
      && ParseVersion(version).Ok?
      && exists p: nat, q: nat | p <= q <= |c| :: ReleaseBlockAt(c, p, q) && HasChangeHeading(c[p..q])
    ensures !Contains(c, UnreleasedHeading) ==> Released(c, version, date).None?
  {
    if Released(c, version, date).Some? {
      ReleaseHasBlock(c, version, date);
    }
    if ParseVersion(version).Ok? && exists p: nat, q: nat | p <= q <= |c| :: ReleaseBlockAt(c, p, q) && HasChangeHeading(c[p..q]) {
      var p: nat, q: nat :| p <= q <= |c| && ReleaseBlockAt(c, p, q) && HasChangeHeading(c[p..q]);
      BlockGivesRelease(c, version, date, p, q);
    }
    FindContains(c, UnreleasedHeading);
  }

  /** A successful release had a well-formed version and a block with a change subsection. */
  lemma ReleaseHasBlock(c: string, version: string, date: string)
    requires Released(c, version, date).Some?
    ensures ParseVersion(version).Ok?
    ensures exists p: nat, q: nat | p <= q <= |c| :: ReleaseBlockAt(c, p, q) && HasChangeHeading(c[p..q])
  {
    var p := FindFrom(c, UnreleasedHeading, 0);
    var q := ReleaseBlockEnd(c, p + 15).value;
    assert ReleaseBlockAt(c, p, q);
  }

  /** A well-formed version and a block with a change subsection make the release succeed. */
  lemma BlockGivesRelease(c: string, version: string, date: string, p: nat, q: nat)
    requires ParseVersion(version).Ok? && p <= q <= |c|
    requires ReleaseBlockAt(c, p, q) && HasChangeHeading(c[p..q])
    ensures Released(c, version, date).Some?
  {
    ReleaseBlockEndAt(c, p + 15, q);
  }

  /** Renaming the heading of a block that holds no other Unreleased heading. */
  lemma RenameBlockHeading(block: string, heading: string)
    requires OccursOnlyAt(block, UnreleasedHeading, 0)
    ensures ReplaceAll(block, UnreleasedHeading, heading) == heading + block[15..]
  {
    ReplaceUnique(block, UnreleasedHeading, heading, 0);
  }

  /** Replacing the block that starts at the only Unreleased heading. */
  lemma ReplaceSoleBlock(c: string, p: nat, q: nat, rep: string)
    requires SoleUnreleased(c, p) && p + 15 <= q <= |c|
    ensures ReplaceAll(c, c[p..q], rep) == c[..p] + rep + c[q..]
  {
    var block := c[p..q];
    assert block[..15] == UnreleasedHeading;
    assert OccursAt(c, block, p);
    UniqueByPrefix(c, block, 15, p);
    ReplaceUnique(c, block, rep, p);
  }

  /** With a single Unreleased heading, a successful release rewrites only that heading: everything
      before it and every entry after it stay as they were. */
  lemma ReleaseShape(c: string, version: string, date: string, p: nat)
    requires SoleUnreleased(c, p)
    requires Released(c, version, date).Some?
    ensures Released(c, version, date).value == AfterRelease(c, p, version, date)
  {
    OnlyAtFound(c, UnreleasedHeading, p);
    ReleasedSteps(c, version, date, p);
    var q := ReleaseBlockEnd(c, p + 15).value;
    var heading := ReleaseHeading(version, date);
    SoleInBlock(c, p, q);
    RenameBlockHeading(c[p..q], heading);
    ReplaceSoleBlock(c, p, q, "## [Unreleased]\n\n" + "\n" + (heading + c[p..q][15..]));
    OpeningIsFresh();
    Reassemble(c, p, q, heading);
  }

  /** A block that starts at the only Unreleased heading holds that heading once, at its start. */
  lemma SoleInBlock(c: string, p: nat, q: nat)
    requires SoleUnreleased(c, p) && p + 15 <= q <= |c|
    ensures OccursOnlyAt(c[p..q], UnreleasedHeading, 0)
  {
    var block := c[p..q];
    assert OccursAt(block, UnreleasedHeading, 0) by {
      assert block[..15] == c[p..p + 15];
    }
    forall j | OccursAt(block, UnreleasedHeading, j)
      ensures j == 0
    {
      OccursInSlice(c, UnreleasedHeading, p, q, j);
      OnlyAt(c, UnreleasedHeading, p, p + j);
    }
  }

  lemma OpeningIsFresh()
    ensures "## [Unreleased]\n\n" + "\n" == FreshUnreleased
  {
  }

  /** The pieces of a released document put back together. */
  lemma Reassemble(c: string, p: nat, q: nat, heading: string)
    requires p + 15 <= q <= |c|
    ensures c[..p] + (FreshUnreleased + (heading + c[p..q][15..])) + c[q..]
            == c[..p] + FreshUnreleased + heading + c[p + 15..]
  {
    assert c[p..q][15..] + c[q..] == c[p + 15..];
  }

  /** The first 18 characters of the released document are the fresh Unreleased heading. */
  lemma AfterReleaseLayout(c: string, p: nat, version: string, date: string, n: string)
    requires OccursAt(c, UnreleasedHeading, p)
    requires n == AfterRelease(c, p, version, date)
    ensures |n| == |c| + 3 + |ReleaseHeading(version, date)|
    ensures n[..p + 15] == c[..p + 15]
    ensures n[p..p + 18] == FreshUnreleased
    ensures n[p + 18..p + 18 + |ReleaseHeading(version, date)|] == ReleaseHeading(version, date)
  {
    var h := ReleaseHeading(version, date);
    assert n == c[..p] + FreshUnreleased + h + c[p + 15..];
    assert n[..p + 15] == c[..p] + c[p..p + 15];
    assert c[..p + 15] == c[..p] + c[p..p + 15];
    assert n[p..p + 18] == FreshUnreleased;
    assert n[p + 18..p + 18 + |h|] == h;
  }

  /** The characters of the fresh Unreleased heading. */
  lemma FreshLayout()
    ensures |FreshUnreleased| == 18
    ensures FreshUnreleased[..15] == UnreleasedHeading && FreshUnreleased[15..] == "\n\n\n"
    ensures FreshUnreleased[4..14] == "Unreleased" && FreshUnreleased[14] == ']'
    ensures forall k :: 4 <= k < 14 ==> FreshUnreleased[k] != ']'
    ensures forall k :: 2 <= k < 18 ==> FreshUnreleased[k] != '#'
  {
  }

  /** A pattern that starts with three `#` does not occur in a text with no `#` past its second
      character. */
  lemma NoTripleHash(s: string, pat: string)
    requires |pat| >= 3 && pat[..3] == "###"
    requires forall k :: 2 <= k < |s| ==> s[k] != '#'
    ensures !Contains(s, pat)
  {
    forall i | 0 <= i && i + |pat| <= |s|
      ensures !OccursAt(s, pat, i)
    {
      assert s[i..i + |pat|][2] == s[i + 2] && pat[2] == pat[..3][2];
    }
  }

  /** The released document's Unreleased heading is still the first one, at `p`. */
  lemma FreshHeadingFirst(c: string, p: nat, version: string, date: string, n: string)
    requires SoleUnreleased(c, p)
    requires n == AfterRelease(c, p, version, date)
    ensures FindFrom(n, UnreleasedHeading, 0) == p
  {
    AfterReleaseLayout(c, p, version, date, n);
    FreshLayout();
    OnlyAtFound(c, UnreleasedHeading, p);
    assert OccursAt(n, UnreleasedHeading, p) by {
      assert n[p..p + 15] == n[p..p + 18][..15];
    }
    forall j | 0 <= j < p
      ensures !OccursAt(n, UnreleasedHeading, j)
    {
      OccursAtAgree(n, c, UnreleasedHeading, j, p + 15);
    }
    FindFromAt(n, UnreleasedHeading, 0, p);
  }

  /** In the released document the first `## [` after the fresh Unreleased heading is the release
      heading, three characters later. */
  lemma ReleaseHeadingNext(c: string, p: nat, version: string, date: string, n: string)
    requires OccursAt(c, UnreleasedHeading, p)
    requires n == AfterRelease(c, p, version, date)
    ensures forall x :: p + 1 <= x < p + 18 ==> !OccursAt(n, "## [", x)
    ensures OccursAt(n, "## [", p + 18)
    ensures p + 22 + |version| < |n| && n[p + 22 + |version|] == ']'
    ensures n[p + 22..p + 22 + |version|] == version
  {
    AfterReleaseLayout(c, p, version, date, n);
    NoHeadingInFresh(n, p);
    HeadingLayout(n, p + 18, version, date);
  }

  /** No `## [` starts inside a fresh Unreleased heading, past its first character. */
  lemma NoHeadingInFresh(n: string, p: nat)
    requires p + 18 <= |n| && n[p..p + 18] == FreshUnreleased
    ensures forall x :: p + 1 <= x < p + 18 ==> !OccursAt(n, "## [", x)
  {
    FreshLayout();
    forall x | p + 1 <= x < p + 18 && x + 4 <= |n|
      ensures !OccursAt(n, "## [", x)
    {
      if x == p + 1 {
        assert n[x..x + 4][1] == n[p..p + 18][2];
      } else {
        assert n[x..x + 4][0] == n[p..p + 18][x - p];
      }
    }
  }

  /** A release heading written at `at` is a `## [` heading whose version runs up to a `]`. */
  lemma HeadingLayout(n: string, at: nat, version: string, date: string)
    requires at + |ReleaseHeading(version, date)| <= |n|
    requires n[at..at + |ReleaseHeading(version, date)|] == ReleaseHeading(version, date)
    ensures OccursAt(n, "## [", at)
    ensures at + 4 + |version| < |n| && n[at + 4 + |version|] == ']'
    ensures n[at + 4..at + 4 + |version|] == version
  {
    var h := ReleaseHeading(version, date);
    assert h[..4] == "## [";
    assert h[4..4 + |version|] == version;
    assert h[4 + |version|] == ']';
    forall k | 0 <= k < |h|
      ensures n[at + k] == h[k]
    {
      assert n[at + k] == n[at..at + |h|][k];
    }
    forall k | 0 <= k < 4
      ensures n[at..at + 4][k] == "## ["[k]
    {
      assert h[k] == h[..4][k];
    }
    forall k | 0 <= k < |version|
      ensures n[at + 4..at + 4 + |version|][k] == version[k]
    {
      assert h[4 + k] == h[4..4 + |version|][k];
    }
  }

  /** The block a second release would take is the bare fresh heading. */
  lemma FreshBlock(c: string, p: nat, version: string, date: string, n: string)
    requires SoleUnreleased(c, p)
    requires n == AfterRelease(c, p, version, date)
    ensures ReleaseBlockEnd(n, p + 15) == Some(p + 18) && n[p..p + 18] == FreshUnreleased
  {
    AfterReleaseLayout(c, p, version, date, n);
    ReleaseHeadingNext(c, p, version, date, n);
    assert CloseAfter(n, p + 22) by {
      assert n[p + 22 + |version|] == ']';
    }
    ReleaseBlockEndAt(n, p + 15, p + 18);
  }

  /** With a single Unreleased heading, a release cannot be made twice in a row: the fresh
      Unreleased block holds no change subsection. */
  lemma ReleaseTwiceFails(c: string, version: string, date: string, p: nat, again: string, later: string)
    requires SoleUnreleased(c, p)
    requires Released(c, version, date).Some?
    ensures Released(Released(c, version, date).value, again, later) == None
  {
    ReleaseShape(c, version, date, p);
    var n := Released(c, version, date).value;
    FreshHeadingFirst(c, p, version, date, n);
    FreshBlock(c, p, version, date, n);
    FreshHasNoSubsection(n, p);
    NoSubsectionNoRelease(n, again, later, p, p + 18);
  }

  /** A fresh Unreleased heading holds no change subsection. */
  lemma FreshHasNoSubsection(n: string, p: nat)
    requires p + 18 <= |n| && n[p..p + 18] == FreshUnreleased
    ensures !HasChangeHeading(n[p..p + 18])
  {
    FreshLayout();
    forall kind | kind in ChangeKinds
      ensures !Contains(FreshUnreleased, "### " + kind)
    {
      NoTripleHash(FreshUnreleased, "### " + kind);
    }
  }

  /** `create_release` reports an error when the Unreleased block holds no change subsection. */
  lemma NoSubsectionNoRelease(c: string, version: string, date: string, p: nat, q: nat)
    requires FindFrom(c, UnreleasedHeading, 0) == p && ReleaseBlockEnd(c, p + 15) == Some(q)
    requires p <= q <= |c| && !HasChangeHeading(c[p..q])
    ensures Released(c, version, date) == None
  {
  }

  /** A text with no `#` holds no subsection opener. */
  lemma NoOpenerWithoutHash(u: string, heading: string)
    requires forall k :: 0 <= k < |u| ==> u[k] != '#'
    ensures !Contains(u, Opener(heading))
  {
    forall i | 0 <= i && i + |Opener(heading)| <= |u|
      ensures !OccursAt(u, Opener(heading), i)
    {
      assert u[i..i + |Opener(heading)|][0] == u[i];
    }
  }

  /** In the released document the Unreleased block holds only the three blank-line characters. */
  lemma FreshBody(c: string, version: string, date: string, p: nat, n: string)
    requires SoleUnreleased(c, p)
    requires n == AfterRelease(c, p, version, date)
    ensures UnreleasedBody(n) == Some("\n\n\n")
  {
    FreshHeadingFirst(c, p, version, date, n);
    FreshBlock(c, p, version, date, n);
    ReleaseHeadingNext(c, p, version, date, n);
    FindFromAt(n, "## [", p + 15, p + 18);
    FreshLayout();
    assert n[p + 15..p + 18] == n[p..p + 18][15..];
  }

  /** Three newlines hold no subsection, so they classify to nothing and suggest no bump. */
  lemma BlankBodySuggestsNothing()
    ensures SuggestBump(Some(Classify("\n\n\n"))) == NoBump
  {
    var u := "\n\n\n";
    forall heading | heading in ["Removed", "Changed", "Added", "Fixed", "Security"]
      ensures !Contains(u, Opener(heading))
    {
      NoOpenerWithoutHash(u, heading);
    }
    UnreadHeadingsSuggestNothing(u);
  }

  /** After a release the Unreleased block is empty, so the analysis finds nothing and suggests
      no bump. */
  lemma ReleaseLeavesNothingToSuggest(c: string, version: string, date: string, p: nat)
    requires SoleUnreleased(c, p)
    requires Released(c, version, date).Some?
    ensures UnreleasedBody(Released(c, version, date).value) == Some("\n\n\n")
    ensures SuggestBump(Analysis(Some(Released(c, version, date).value))) == NoBump
  {
    ReleaseShape(c, version, date, p);
    FreshBody(c, version, date, p, Released(c, version, date).value);
    BlankBodySuggestsNothing();
  }

  /** A text that is empty or starts with a non-digit is not a version. */
  lemma NotTriple(s: string)
    requires s == [] || !IsDigit(s[0])
    ensures ReadTriple(s).None?
  {
    forall i: nat, j: nat | 0 < i <= |s|
      ensures !SplitsAt(s, i, j)
    {
      assert s[..i][0] == s[0];
    }
  }

  /** A version holds no `]`. */
  lemma TripleHasNoBracket(s: string)
    requires ReadTriple(s).Some?
    ensures forall k :: 0 <= k < |s| ==> s[k] != ']'
  {
    ReadTripleSplits(s);
    var i: nat, j: nat :| SplitsAt(s, i, j);
    forall k | 0 <= k < |s|
      ensures s[k] != ']'
    {
      if k < i {
        assert s[..i][k] == s[k];
      } else if i < k < j {
        assert s[i + 1..j][k - i - 1] == s[k];
      } else if j < k {
        assert s[j + 1..][k - j - 1] == s[k];
      }
    }
  }

  /** No version heading starts at any index from `from` up to `x`. */
  ghost predicate NoVersionHeadingIn(c: string, from: nat, x: nat) {
    forall y :: from <= y < x ==> VersionHeadingAt(c, y).None?
  }

  /** The scan for the first version heading stops at the first one. */
  lemma {:induction false} FirstVersionHeadingAt(c: string, from: nat, x: nat)
    requires from <= x && VersionHeadingAt(c, x).Some?
    requires NoVersionHeadingIn(c, from, x)
    ensures FirstVersionHeading(c, from) == Some(c[x + 4..VersionHeadingAt(c, x).value])
    decreases x - from
  {
    if from < x {
      assert VersionHeadingAt(c, from).None?;
      assert FirstVersionHeading(c, from) == FirstVersionHeading(c, from + 1);
      FirstVersionHeadingAt(c, from + 1, x);
    } else {
      var k := VersionHeadingAt(c, x).value;
      assert FirstVersionHeading(c, x) == Some(c[x + 4..k]);
    }
  }

  /** In the released document no version heading comes before the release heading. */
  lemma NoVersionHeadingBefore(c: string, version: string, date: string, p: nat, n: string)
    requires OccursAt(c, UnreleasedHeading, p)
    requires NoVersionHeadingIn(c, 0, p)
    requires n == AfterRelease(c, p, version, date)
    ensures NoVersionHeadingIn(n, 0, p + 18)
  {
    AfterReleaseLayout(c, p, version, date, n);
    ReleaseHeadingNext(c, p, version, date, n);
    assert c[p + 14] == ']' by {
      assert c[p..p + 15] == UnreleasedHeading;
    }
    forall x | 0 <= x < p
      ensures VersionHeadingAt(n, x).None?
    {
      VersionHeadingAgree(c, n, x, p + 15, p + 14);
    }
    FreshHeadingNotVersion(n, p);
  }

  /** Whether a version heading starts at `x` is decided before the first `]` after `## [`: two
      texts that agree up to a `]` at `b` read the same heading there. */
  lemma VersionHeadingAgree(c: string, n: string, x: nat, m: nat, b: nat)
    requires m <= |c| && m <= |n| && c[..m] == n[..m]
    requires x + 4 <= b < m && c[b] == ']'
    ensures VersionHeadingAt(n, x) == VersionHeadingAt(c, x)
  {
    OccursAtAgree(c, n, "## [", x, m);
    assert OccursAt(c, "]", b) by {
      assert c[b..b + 1] == [c[b]];
    }
    FindFromAgree(c, n, "]", x + 4, m, b);
    var k := FindFrom(c, "]", x + 4);
    assert c[x + 4..k] == n[x + 4..k] by {
      assert c[x + 4..k] == c[..m][x + 4..k];
      assert n[x + 4..k] == n[..m][x + 4..k];
    }
  }

  /** The fresh `## [Unreleased]` heading is not a version heading. */
  lemma FreshHeadingNotVersion(n: string, p: nat)
    requires p + 18 <= |n| && n[p..p + 18] == FreshUnreleased
    ensures VersionHeadingAt(n, p).None?
  {
    FreshLayout();
    assert n[p + 4] == n[p..p + 18][4] == 'U';
    var k := FindFrom(n, "]", p + 4);
    if k >= 0 {
      assert n[k..k + 1][0] == n[k];
      assert n[p + 4..k][0] == n[p + 4];
      NotTriple(n[p + 4..k]);
    }
  }

  /** The version heading at `x` names `version`. */
  ghost predicate NamesVersionAt(n: string, x: nat, version: string) {
    && VersionHeadingAt(n, x) == Some(x + 4 + |version|)
    && n[x + 4..x + 4 + |version|] == version
  }

  /** A release heading written at `at` is the version heading of its version. */
  lemma ReleaseHeadingAt(n: string, at: nat, version: string, date: string)
    requires at + |ReleaseHeading(version, date)| <= |n| && ReadTriple(version).Some?
    requires n[at..at + |ReleaseHeading(version, date)|] == ReleaseHeading(version, date)
    ensures NamesVersionAt(n, at, version)
  {
    HeadingLayout(n, at, version, date);
    VersionHeadingWritten(n, at, version);
  }

  /** A `## [` followed by a version and a `]` is a version heading that ends at that `]`. */
  lemma VersionHeadingWritten(n: string, at: nat, version: string)
    requires OccursAt(n, "## [", at) && ReadTriple(version).Some?
    requires at + 4 + |version| < |n| && n[at + 4 + |version|] == ']'
    requires n[at + 4..at + 4 + |version|] == version
    ensures VersionHeadingAt(n, at).Some? && VersionHeadingAt(n, at).value == at + 4 + |version|
  {
    var k := at + 4 + |version|;
    TripleHasNoBracket(version);
    NoBracketIn(n, at + 4, version);
    assert OccursAt(n, "]", k) by {
      assert n[k..k + 1] == [n[k]];
    }
    FindFromAt(n, "]", at + 4, k);
  }

  /** A text with no `]` written at `from` has no `]` in its stretch. */
  lemma NoBracketIn(n: string, from: nat, t: string)
    requires from + |t| <= |n| && n[from..from + |t|] == t
    requires forall k :: 0 <= k < |t| ==> t[k] != ']'
    ensures forall j :: from <= j < from + |t| ==> !OccursAt(n, "]", j)
  {
    forall j | from <= j < from + |t|
      ensures !OccursAt(n, "]", j)
    {
      assert n[j] == t[j - from] by {
        assert n[j] == n[from..from + |t|][j - from];
      }
      assert n[j..j + 1][0] == n[j];
    }
  }

  /** The first version heading of the released document names the released version. */
  lemma LatestAfterRelease(c: string, version: string, date: string, p: nat, n: string)
    requires OccursAt(c, UnreleasedHeading, p) && ReadTriple(version).Some?
    requires NoVersionHeadingIn(c, 0, p)
    requires n == AfterRelease(c, p, version, date)
    ensures FirstVersionHeading(n, 0) == Some(version)
  {
    NoVersionHeadingBefore(c, version, date, p, n);
    AfterReleaseLayout(c, p, version, date, n);
    ReleaseHeadingAt(n, p + 18, version, date);
    FirstHeadingNames(n, p + 18, version);
  }

  /** A version heading naming `version` with none before it is the first one. */
  lemma FirstHeadingNames(n: string, x: nat, version: string)
    requires NamesVersionAt(n, x, version)
    requires NoVersionHeadingIn(n, 0, x)
    ensures FirstVersionHeading(n, 0) == Some(version)
  {
    var k := x + 4 + |version|;
    assert VersionHeadingAt(n, x).value == k;
    FirstVersionHeadingAt(n, 0, x);
    assert FirstVersionHeading(n, 0) == Some(n[x + 4..k]);
  }

  /** With a single Unreleased heading and no version heading above it, the version just released
      is the one `get_latest_version` reports afterwards. */
  lemma ReleaseBecomesLatest(c: string, version: string, date: string, p: nat)
    requires SoleUnreleased(c, p)
    requires Released(c, version, date).Some? && ReadTriple(version).Some?
    requires NoVersionHeadingIn(c, 0, p)
    ensures FirstVersionHeading(Released(c, version, date).value, 0) == Some(version)
  {
    ReleaseShape(c, version, date, p);
    LatestAfterRelease(c, version, date, p, Released(c, version, date).value);
  }
}
