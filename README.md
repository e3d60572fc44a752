# Release tooling of django-currency-converter, in Dafny

This project models two release scripts of the repository.

- **The version manager** (`scripts/version_manager.py`) handles MAJOR.MINOR.PATCH versions:
  - It parses, formats and bumps them.
  - It reads the `version='…'` token of `setup.py` and rewrites it.
  - It classifies the entries of the changelog's `## [Unreleased]` block into breaking, feature, fix and other buckets.
  - It suggests a bump kind from those buckets.
  - Its `bump` command applies the suggested kind (`--auto`) or the requested kind to the setup script.

  `VersionManager` holds nothing but two paths. Its operations are therefore modelled as functions over the file texts:
  - module `Versions` holds version arithmetic and the setup-script token;
  - module `ChangeAnalysis` holds the classifier, the suggestion and the `bump` command.

  The classifier's loops are methods proved equal to the function that specifies them.
- **The changelog maintainer** (`scripts/changelog.py`) keeps a Keep a Changelog document. Its `ChangelogManager` object holds the document text and updates it in place:
  - it adds an entry under a kind heading in the Unreleased block;
  - it turns the Unreleased block into a dated release;
  - it validates the document;
  - it reports the latest version heading.

  The model is the class `Changelog.ChangelogManager`. Its `content` field is the text and its `onDisk` field says whether the file exists. `AddEntry` and `CreateRelease` set the text to the result of a function of the old text, `AddedEntry` and `Released`. `Validate` and `LatestVersion` change nothing and return what `ValidationIssues` and `FirstVersionHeading` compute.

  The module `ChangelogProperties` proves what those functions guarantee, alone and together:
  - where an entry lands;
  - that a release renames only the Unreleased heading;
  - that a second release in a row fails;
  - that after a release the version manager suggests no bump;
  - that the released version becomes the latest;
  - exactly when validation passes.

The regular expressions of the scripts are written out as explicit scans:
- a search finds the leftmost match;
- a lazy group stops at the first place it may stop;
- `findall` resumes after each match.

The module `Scan` states once what `findall` returns for any pattern: the leftmost match from where the search resumes, then the next one after its end, until none is left. The subsection, item and dated-version scans and the `re.sub` of the setup script are proved to follow it.

Python's `str.replace` is `Text.ReplaceAll`: every non-overlapping occurrence, scanning left to right. `Text.ReplaceAllSplice` proves that it puts the replacement at exactly the occurrences a `findall`-style search finds, the later copies as well as the first.

Behaviour worth noting:
- **Major bump.** Only `### Changed` items are searched for warning words. There are four words: breaking, incompatible, removed, deprecated. `### Deprecated` items are not read at all.
- **`add_entry` placement.** It fails when there is no Unreleased heading. It places a new kind subsection before the first `\n## ` of the block, or at its end.
- **`create_release` failures.** It also fails when no `## [...]` heading follows the Unreleased block.
- **Gluing.** `add_entry` appends `- message\n` right after the end of an existing subsection. A subsection that runs straight into `\n### ` or `\n## ` has no newline of its own at the end, so the new line is glued onto its last item (`- x` becomes `- x- y\n`).
- **Parsing.** A version followed by one trailing newline is accepted, as Python's `$` allows.
- **The `bump` command** neither validates nor releases the changelog. No rollback or verification stage exists in the code.

Files:
- `results.dfy`: Option and Result.
- `scan.dfy`: what `findall` returns, for any pattern, and the text a substitution builds from those matches.
- `text.dfy`: substring search, `str.replace`, digits, and ASCII case.
- `versions.dfy`
- `change_analysis.dfy`
- `changelog.dfy`
- `changelog_properties.dfy`

## Model

| member | source | states |
|---|---|---|
| Text.FindFrom | scripts/changelog.py:65 | `str.find`: the result is -1 exactly when the pattern does not occur from `from` on; otherwise it is an occurrence with none before it |
| Text.FindOrEnd | scripts/changelog.py:65-67 | the first occurrence of the pattern, or the length of the text when there is none |
| Text.ReplaceAll | scripts/changelog.py:73 | `str.replace`: every non-overlapping occurrence, scanning left to right, is rewritten; its meaning for any number of occurrences is stated by `ReplaceAllSplice`, and the single and absent cases by `ReplaceUnique` and `ReplaceAbsent` |
| Text.ReplaceAllSplice | scripts/changelog.py:73 | `replace` of a non-empty text (here and at lines 61, 104 and 113) keeps the text between occurrences and puts the replacement in place of exactly the occurrences a left-to-right search finds, each search resuming after the previous occurrence |
| Text.ReplaceUnique | scripts/changelog.py:73 | `replace` of a non-empty text that occurs exactly once rewrites that occurrence and keeps everything around it |
| Text.ReplaceAbsent | scripts/changelog.py:73 | `replace` of a non-empty text that does not occur changes nothing |
| Text.FindContains | scripts/changelog.py:54 | `find` succeeds exactly when `in` holds |
| Text.NatToString | scripts/version_manager.py:47-49 | the decimal text of a number is a non-empty digit run worth that number, with no superfluous leading zero |
| Text.NatToStringOfDigits | scripts/version_manager.py:40-49 | `str(int(s))` is `s` for every digit run without a superfluous leading zero |
| Versions.ReadTripleAccepts | scripts/version_manager.py:42-45 | every text of the form digits `.` digits `.` digits matches, and reads as the three numbers it spells |
| Versions.ReadTripleSplits | scripts/version_manager.py:42-45 | every match has that form, with the values of its three digit runs |
| Versions.ReadTriple | scripts/version_manager.py:42-45 | the match of `(\d+)\.(\d+)\.(\d+)` on a whole text, read as three numbers; its meaning is stated by `ReadTripleAccepts` and `ReadTripleSplits` |
| Versions.ParseVersion | scripts/version_manager.py:40-45 | a success is three digit runs joined by dots, possibly followed by one newline, and its value is their three numbers; a failure carries "Invalid version format: " and the input |
| Versions.ParseVersionAccepts | scripts/version_manager.py:40-45 | every well-formed version string parses to the numbers it spells |
| Versions.ParseVersionIff | scripts/version_manager.py:40-45 | parsing succeeds if and only if the text, less one trailing newline, is three digit runs joined by dots |
| Versions.FormatVersion | scripts/version_manager.py:47-49 | a formatted version consists of digits and dots only |
| Versions.FormatParseRoundTrip | scripts/version_manager.py:40-49 | parsing a formatted version gives back the version |
| Versions.ParseFormatRoundTrip | scripts/version_manager.py:40-49 | a text of the form digits `.` digits `.` digits parses, and formatting the result gives back the text if and only if none of the three digit runs has a superfluous leading zero |
| Versions.LessTransitive | scripts/changelog.py:157-161 | the list comparison of version numbers is transitive |
| Versions.Bump | scripts/version_manager.py:137-147 | succeeds exactly for major, minor and patch; a major bump resets minor and patch, a minor bump resets patch, a patch bump increments patch; the result is strictly greater than the input |
| Versions.BumpIsLeast | scripts/version_manager.py:137-147 | each bump gives the least version above the current one that raises the component it names |
| Versions.QuoteFrom | scripts/version_manager.py:33 | the first quote character at or after a position, or the end |
| Versions.TokenAt | scripts/version_manager.py:33 | whether the token pattern matches at a position, and where its closing quote is; its meaning is stated by `TokenShape` |
| Versions.TokenShape | scripts/version_manager.py:33 | a token is `version=`, a quote, a non-empty run of non-quotes and a quote; conversely, wherever that shape starts a token starts, closing at the first quote |
| Versions.FirstToken | scripts/version_manager.py:33 | the search finds the leftmost start of a `version=` token, and none exists when it finds none |
| Versions.GetCurrentVersion | scripts/version_manager.py:32-38 | succeeds exactly when some token exists; the result is the text between the quotes of the leftmost token, non-empty and free of quotes |
| Versions.UpdateSetupPy | scripts/version_manager.py:152-164 | succeeds exactly when the `re.sub` result differs from the script, and then returns that result; otherwise fails with "Could not update version in setup.py"; in particular it fails when the script holds no token |
| Versions.SubTokens | scripts/version_manager.py:157-161 | `re.sub` of the token pattern: each non-overlapping token, found leftmost and resumed after its closing quote, is replaced; its meaning is stated by `SubTokensSplice`, `SubTokensSingle` and `UpdateThenRead` |
| Versions.SubTokensSplice | scripts/version_manager.py:157-161 | `re.sub` replaces exactly the tokens `re.findall` of the same pattern finds, leftmost first and each search resuming after the closing quote, and keeps the text between them |
| Versions.SubTokensSingle | scripts/version_manager.py:157-161 | in a script with a single token, only that token is rewritten |
| Versions.UpdateThenRead | scripts/version_manager.py:152-161 | after rewriting, the script reads back the new version, for any non-empty version without quotes |
| Versions.BumpVersion | scripts/version_manager.py:132-150 | succeeds exactly when the setup script has a token, the token parses as a version and the kind is major, minor or patch; a missing token's error is passed on |
| Versions.BumpVersionValue | scripts/version_manager.py:132-150 | the text returned by a successful bump parses as the bump of the parsed current version |
| Versions.BumpVersionIncreases | scripts/version_manager.py:132-150 | a successful bump gives a well-formed version strictly greater than the current one |
| Versions.FormattedUnquoted | scripts/version_manager.py:47-49 | a formatted version is non-empty and holds no quote character |
| Versions.BumpedIsNew | scripts/version_manager.py:132-150 | a successful bump gives a version different from the current one and writable into the token |
| Versions.WriteNewVersion | scripts/version_manager.py:152-166 | writing a version other than the current one succeeds, and the script then reads back that version |
| Versions.UpdateAfterBump | scripts/version_manager.py:263-267 | after a successful bump the update of the setup script cannot fail, and the script then reads back the bumped version |
| ChangeAnalysis.UnreleasedBody | scripts/version_manager.py:58-65 | there is no capture exactly when the document has no Unreleased heading; otherwise the capture follows the first such heading and runs up to the next `## [` or the end |
| ChangeAnalysis.SubsectionBodies | scripts/version_manager.py:77-82 | `findall` of a subsection pattern, non-overlapping: each body runs from just after an opener to the next `\n### ` or the end, and the next opener is searched after that body; no body holds `\n### `; the list is empty exactly when the opener does not occur; what it returns is stated by `SubsectionBodiesMatch` |
| ChangeAnalysis.SubsectionBodiesMatch | scripts/version_manager.py:77-82 | the bodies are what `findall` returns: one per opener the search finds, leftmost first, each search resuming at the end of the previous body, each body running from its opener to the next `\n### ` or the end, and no opener left after the last |
| ChangeAnalysis.ItemsFrom | scripts/version_manager.py:84 | `findall` of `^- (.+)$` line by line: each item is the non-empty rest of a line that starts with `- `, and holds no newline; which items it returns is stated by `ItemsFromSound` and `ItemsFromComplete` |
| ChangeAnalysis.ItemsFromSound | scripts/version_manager.py:84 | every item returned is the rest of some line of the form `- x` |
| ChangeAnalysis.ItemsFromComplete | scripts/version_manager.py:84 | every line of the form `- x`, with `x` non-empty, gives the item `x` |
| ChangeAnalysis.FirstSubsectionItem | scripts/version_manager.py:77-86 | an item line right after the first opener of a subsection heading is among the items collected under that heading |
| ChangeAnalysis.RemovedItemIsBreaking | scripts/version_manager.py:77-86 | an item line right after the first `### Removed` heading of the Unreleased block is classified as breaking |
| ChangeAnalysis.FilterAppend | scripts/version_manager.py:89-93 | sorting items one subsection after another is the same as sorting them all at once |
| ChangeAnalysis.FilterMembers | scripts/version_manager.py:89-93 | the items kept are exactly the items that pass the test |
| ChangeAnalysis.MentionsBreaking | scripts/version_manager.py:90 | an item is warning-worded when its lower-cased text contains breaking, incompatible, removed or deprecated; used by `ChangedItemsPartition` and `ClassifyPlacement` |
| ChangeAnalysis.ExtendWithAll | scripts/version_manager.py:83-86 | the `extend` loop appends the item lists, in order, to the bucket |
| ChangeAnalysis.SortChangedItems | scripts/version_manager.py:89-93 | each Changed item goes to the end of the breaking bucket if it mentions a warning word, otherwise to the end of the other bucket |
| ChangeAnalysis.SortChangedSubsections | scripts/version_manager.py:81-93 | over all Changed subsections, the breaking bucket gains the warning-worded items and the other bucket holds the rest, both in order |
| ChangeAnalysis.AnalyzeBlock | scripts/version_manager.py:67-114 | the four buckets are those of `Classify`: Removed items plus warning-worded Changed items are breaking; Added items are features; Fixed then Security items are fixes; the other Changed items are other |
| ChangeAnalysis.Classify | scripts/version_manager.py:67-114 | the four buckets of the analysis; where each item lands is stated by `ClassifyPlacement` and `ClassifyCounts` |
| ChangeAnalysis.AnalyzeUnreleasedChanges | scripts/version_manager.py:51-114 | no analysis without a file or without an Unreleased heading; otherwise the classification of the captured block |
| ChangeAnalysis.SuggestBump | scripts/version_manager.py:116-130 | none exactly when nothing was analysed or every bucket is empty; major exactly when breaking is non-empty; minor exactly when breaking is empty and features is not; patch exactly when only fixes or other is non-empty |
| ChangeAnalysis.SuggestVersionBump | scripts/version_manager.py:116-130 | the suggestion is the one for the analysis of the changelog |
| ChangeAnalysis.ChangedItemsPartition | scripts/version_manager.py:89-93 | the Changed items split into warning-worded and other items: each item is in exactly one part, and the sizes add up |
| ChangeAnalysis.ClassifyPlacement | scripts/version_manager.py:76-112 | where each item lands: Removed items are breaking; Changed items are breaking or other according to their wording; Added items are features; Fixed and Security items are fixes; other holds exactly the unflagged Changed items |
| ChangeAnalysis.ClassifyCounts | scripts/version_manager.py:76-112 | every item of the five read subsections is counted exactly once across the four buckets |
| ChangeAnalysis.BreakingNonEmpty | scripts/version_manager.py:89-93 | the breaking part of the Changed items is non-empty exactly when some item is warning-worded |
| ChangeAnalysis.SuggestionPrecedence | scripts/version_manager.py:76-130 | the suggestion stated on the subsections, in order of precedence: major for a Removed item or a warning-worded Changed item; else minor for an Added item; else patch for any Fixed, Security or Changed item; else none |
| ChangeAnalysis.NothingToAnalyse | scripts/version_manager.py:53-63 | without a changelog, or without an Unreleased heading in it, nothing is analysed and no bump is suggested |
| ChangeAnalysis.AbsentHeadingNoItems | scripts/version_manager.py:96-100 | a subsection heading that does not occur contributes no items |
| ChangeAnalysis.UnreadHeadingsSuggestNothing | scripts/version_manager.py:76-112 | a block with none of the five read headings (only Deprecated entries, say) leaves every bucket empty and suggests no bump |
| ChangeAnalysis.BumpCommand | scripts/version_manager.py:252-267 | with `--auto` and a "none" suggestion it stops before touching the setup script; otherwise it fails exactly when the bump fails; on success the new version is strictly greater, is written into the script, and reads back |
| Changelog.AddBlockEnd | scripts/changelog.py:43-44 | the lazy group of the add pattern stops at the first `## [...]` heading or `---` rule, or at the end |
| Changelog.ReleaseBlockEnd | scripts/changelog.py:89-90 | the lazy group of the release pattern stops at the first `## [...]` heading, and the match fails when there is none |
| Changelog.SubsectionEnd | scripts/changelog.py:56-57 | the lazy subsection group stops at the first `\n### ` or `\n## `, or at the end |
| Changelog.VersionHeadingAt | scripts/changelog.py:174 | a version heading found at `x` starts with `## [` at `x`; its text runs up to the first `]` after it and reads as a well-formed version |
| Changelog.DatedHeadingAt | scripts/changelog.py:149 | a dated heading is a version heading whose `]` is followed by ` - ` and a YYYY-MM-DD date |
| Changelog.DatedVersionsFrom | scripts/changelog.py:149-150 | every version `findall` collects from dated headings is well formed; what it collects is stated by `DatedVersionsScan`, `DatedVersionsInOrder` and `DatedVersionsComplete` |
| ChangelogProperties.DatedVersionsScan | scripts/changelog.py:149-150 | the versions are what `findall` returns: one per dated heading the search finds, leftmost first, each search resuming after the date of the previous heading, and no dated heading left after the last |
| ChangelogProperties.DatedVersionsInOrder | scripts/changelog.py:149-150 | the headings the versions come from lie at or after the start and in the order of the text |
| ChangelogProperties.DatedVersionsComplete | scripts/changelog.py:149-150 | every dated heading of the text contributes its version |
| ChangelogProperties.DatedHeadingsApart | scripts/changelog.py:149 | two dated headings never overlap: a later one starts after the date of an earlier one |
| Changelog.VersionValues | scripts/changelog.py:158-159 | each version string is read as its three numbers, one for one |
| Changelog.CheckOrdering | scripts/changelog.py:156-161 | the ordering check reports one issue per neighbouring pair that is not strictly decreasing |
| Changelog.CheckPairs | scripts/changelog.py:157-161 | after the loop, the issues are those of every neighbouring pair, in order |
| Changelog.FirstVersionHeading | scripts/changelog.py:174-176 | the first version heading's text is a well-formed version |
| Changelog.ChangelogManager.constructor | scripts/changelog.py:26-30 | the text is the file's text when the file exists, else empty |
| Changelog.ChangelogManager.AddEntry | scripts/changelog.py:32-78 | succeeds exactly when `AddedEntry` does; then the text becomes its result, otherwise nothing changes |
| Changelog.ChangelogManager.CreateRelease | scripts/changelog.py:80-121 | succeeds exactly when `Released` does; then the text becomes its result, otherwise nothing changes |
| Changelog.ChangelogManager.Validate | scripts/changelog.py:123-170 | the issues are those of `ValidationIssues`, in report order |
| Changelog.ChangelogManager.LatestVersion | scripts/changelog.py:172-176 | the version of the first version heading, or "0.0.0" when there is none; always a well-formed version |
| ChangelogProperties.MarkersComplete | scripts/changelog.py:133-146 | each of the four messages is reported exactly when its marker is missing; so the check reports nothing exactly when all four markers are present, and at most four issues |
| ChangelogProperties.OrderingIssuesUpToEmpty | scripts/changelog.py:157-161 | the first pairs raise no issue exactly when each of them is strictly decreasing |
| ChangelogProperties.OrderingIssuesEmpty | scripts/changelog.py:156-161 | the ordering check reports nothing exactly when the versions are newest first |
| ChangelogProperties.DescendingApart | scripts/changelog.py:156-161 | in a newest-first list every version is older than every version before it |
| ChangelogProperties.DescendingHasNoRepeat | scripts/changelog.py:152-161 | a newest-first list names no version twice |
| ChangelogProperties.RepeatAppend | scripts/changelog.py:153 | a list with one more version repeats one exactly when the list already did or the new version was in it |
| ChangelogProperties.DistinctCount | scripts/changelog.py:153-154 | the set of versions is smaller than the list exactly when some version is listed twice |
| ChangelogProperties.ValidExactly | scripts/changelog.py:123-170 | an existing changelog validates cleanly exactly when it has the four markers and its dated versions are newest first |
| ChangelogProperties.AddEntryFailures | scripts/changelog.py:34-48 | `add_entry` fails exactly for an unknown kind or a document without an Unreleased heading |
| ChangelogProperties.CapitalizeIgnoresCase | scripts/changelog.py:36-40 | two spellings of a kind that differ only in case get the same heading |
| ChangelogProperties.CanonicalHeading | scripts/changelog.py:34-40 | an accepted kind, in any case, gets one of the six headings `create_release` looks for |
| ChangelogProperties.WithEntryExisting | scripts/changelog.py:54-61 | a block whose only `### <Kind>` subsection ends at `e` gets the new line at `e` |
| ChangelogProperties.AddEntryAppends | scripts/changelog.py:32-78 | with a single Unreleased heading and a single subsection of the kind, the line `- message\n` is inserted at the end of that subsection, and nothing else changes; when the subsection stops at `\n### ` or `\n## ` that end is just before the newline, so the line is glued onto the last item |
| ChangelogProperties.AddEntryOpensSubsection | scripts/changelog.py:32-78 | with a single Unreleased heading and no subsection of the kind, a new subsection is inserted before the first `\n## ` of the block, or at its end, and nothing else changes |
| ChangelogProperties.RenameBlockHeading | scripts/changelog.py:104-107 | renaming a block that holds one Unreleased heading, at its start, rewrites only that heading |
| ChangelogProperties.ReplaceSoleBlock | scripts/changelog.py:113-116 | replacing the block that starts at the only Unreleased heading rewrites only that block |
| ChangelogProperties.ReleaseShape | scripts/changelog.py:80-121 | with a single Unreleased heading, a release puts a fresh empty Unreleased heading and the release heading in its place; everything before it and every entry after it stay as they were |
| ChangelogProperties.FreshHeadingFirst | scripts/changelog.py:110-116 | in the released document the fresh Unreleased heading is the first one, at the old heading's place |
| ChangelogProperties.FreshBlock | scripts/changelog.py:89-90 | in the released document the release pattern's block is the bare fresh heading |
| ChangelogProperties.ReleaseTwiceFails | scripts/changelog.py:98-101 | with a single Unreleased heading, a second release straight after a first one fails |
| ChangelogProperties.NoSubsectionNoRelease | scripts/changelog.py:98-101 | a release fails when the Unreleased block holds no change subsection |
| Changelog.AddedEntry | scripts/changelog.py:32-78 | the document after `add_entry`, or none on failure; when it fails is stated by `AddEntryFailures`, and where the entry lands by `AddEntryAppends` and `AddEntryOpensSubsection` |
| Changelog.ValidationIssues | scripts/changelog.py:123-170 | the issues `validate` reports, in order; when there are none is stated by `ValidExactly`, the marker messages by `MarkersComplete` and the duplicate check by `DistinctCount` |
| Changelog.Released | scripts/changelog.py:80-121 | the document after `create_release`, or none on failure; when it fails is stated by `ReleaseConditions` and its shape by `ReleaseShape` |
| ChangelogProperties.ReleaseConditions | scripts/changelog.py:80-101 | `create_release` succeeds exactly when the version is well formed and the block from the first Unreleased heading to the next `## [...]` heading holds a `### <Kind>` subsection; in particular it fails without an Unreleased heading |
| ChangelogProperties.ReleaseHasBlock | scripts/changelog.py:82-101 | a successful release had a well-formed version and such a block |
| ChangelogProperties.BlockGivesRelease | scripts/changelog.py:82-101 | a well-formed version and such a block make the release succeed |
| ChangelogProperties.FreshBody | scripts/changelog.py:109-116 | in the released document the Unreleased capture holds only three newlines |
| ChangelogProperties.ReleaseLeavesNothingToSuggest | scripts/changelog.py:104-116 | after a release the version manager's analysis finds nothing and suggests no bump |
| ChangelogProperties.TripleHasNoBracket | scripts/changelog.py:174 | a version holds no `]` |
| ChangelogProperties.FirstVersionHeadingAt | scripts/changelog.py:174-176 | the first version heading at or after a position is the first at which one starts |
| ChangelogProperties.LatestAfterRelease | scripts/changelog.py:104-116 | the first version heading of the released document names the released version |
| ChangelogProperties.ReleaseBecomesLatest | scripts/changelog.py:80-121 | with a single Unreleased heading and no version heading (`## [`, a version, `]`) above it, `get_latest_version` reports the version just released |

## Left out

- File I/O and printing are left out. Files become texts: a missing file is `None`, or the `onDisk` field of the manager. The error messages printed by the changelog maintainer are not modelled; each of its operations returns success or failure.
- `VersionManager.__init__` and the path handling of both scripts are not modelled. The file-existence check of `get_current_version` is left out as well, since it is I/O. `update_setup_py` checks nothing before reading; the error `read_text` raises on a missing file is I/O and not modelled.
- `display_analysis` and the `current` and `suggest` commands are left out: they only print.
- The argument parsing of both `main` functions is left out, and so is the changelog script's command dispatch.
- The reason strings of `suggest_version_bump` are left out; only the bump kind is modelled.
- The unreachable final `else` of `suggest_version_bump` is not modelled.
- The release date is a parameter; the clock is not read.
- `\d` is modelled as the ASCII digits. `str.lower` and `str.capitalize` are modelled on ASCII letters only.
- `update_setup_py` writes `version='<new>'` literally. Backslash escapes in the `re.sub` replacement are not interpreted.
- `analyze_unreleased_changes` returns `{}` for a missing file or heading; the model returns `None`. The suggestion is the same in both cases.
- ChangelogProperties.AddEntryAppends: stated for a document with a single `## [Unreleased]` heading and a single subsection of the kind. With copies, `replace` extends every copy. `Text.ReplaceAllSplice` states that for `replace` in general, but no lemma about `add_entry` spells it out.
- ChangelogProperties.ReleaseShape: stated for a document with a single `## [Unreleased]` heading. The same holds for the other release lemmas.
- ChangelogProperties.ReleaseBecomesLatest: stated for a version without a trailing newline. `create_release` also accepts a version ending in a newline, and then writes that newline inside the heading.
- ChangeAnalysis.ChangedItemsPartition: the split is stated by sizes and membership, not as a multiset equality.
