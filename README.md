# Rooster changelog and release logic, modelled in Dafny

Rooster is a release tool for Python projects hosted on GitHub. It looks at
the pull requests merged since the last version tag and does two things:

- It decides the next version. The labels on the pull requests (`breaking`,
  `feature`, `fix` by default) or an explicit `--bump` pick the bump.
- It writes a Markdown `CHANGELOG.md` section for that version. The section
  groups the pull requests under configurable headings and names the
  contributors.

This project models the logic between rooster's I/O steps:

- the changelog document as a list of top-level Markdown blocks, and its
  grouping into version sections (`## 1.2.0`) and entry sections
  (`### Bug fixes`);
- where a new version section is inserted, and what happens when one for the
  same version already exists;
- building a version section from pull requests;
- the text-level helpers: contributors, spacing, reading versions back out of
  the text, extracting one entry, and turning it into standalone release notes;
- version parsing, ordering, "latest", "previous" and the bump;
- GitHub remote URL parsing and pull-request URLs;
- the configuration defaults and the label helpers;
- the `rooster release` and `rooster changelog` rules for sections, the bump,
  the new version and `--skip-existing`.

Modules:

| file | module | models |
|---|---|---|
| results.dfy | Results | `Option` and `Result`, where `Result` carries the Python exception raised |
| text.dfy | Text | the `str` operations used: `in`, `find`, `replace`, `split`, `splitlines`, `strip`, `rstrip`, ordering |
| versions.dfy | Versions | `packaging.version.Version` for `[N!]N(.N)*`, and `_versions.py` |
| github.dfy | GitHub | `PullRequest`, its URL and order, `parse_remote_url`, the default change line |
| config.dfy | Config | `Config` defaults, `to_kebab`, the label helpers |
| markdown.dfy | Markdown | the block-level document tree and the `Document` class (`add_child`, `add_children`, `empty`) |
| sections.dfy | Sections | `Section.from_elements`, the grouping of blocks under headings |
| entries.dfy | EntrySections | `EntrySection.entries` and `EntrySection.from_pull_requests` |
| version_sections.dfy | VersionSections | `VersionSection.new`, `sections`, `all_entries`, `from_pull_requests`, `as_document` |
| changelog.dfy | Changelogs | `Changelog.new`, `versions`, `get_version_section`, `insert_version_section` |
| changelog_order.dfy | ChangelogOrder | what insertion does to the order of version sections, and the corrected insertion |
| changelog_text.dfy | ChangelogText | `generate_contributors`, `ensure_spacing`, `get_versions_from_changelog`, `extract_entry`, `entry_to_standalone` |
| cli.dfy | Cli | section selection, bump detection, the new version, `--skip-existing` |

The document is a `Document` class. Its `children` field is a `seq<Block>`
that `AddChild`, `AddChildren` and `InsertVersionSection` reassign in place.
Each loop of the source is a method with loop invariants, proved against a
specification function:

- the heading scan of `insert_version_section`;
- the grouping loop of `from_elements`;
- the label union and the label loops of the bump;
- the skip-existing filter;
- `sorted()` over the contributors.

The properties are then proved about those functions.

## Model

| member | source | states |
|---|---|---|
| Markdown.NewHeading | src/rooster/_changelog.py:20-22 | a heading of the given level; it has no title exactly when the text is empty |
| Markdown.Document.Empty | src/rooster/_changelog.py:100-102 | the empty document has no children |
| Markdown.Document.AddChild | src/rooster/_changelog.py:104-105 | the child is appended and the earlier children are unchanged |
| Markdown.Document.AddChildren | src/rooster/_changelog.py:107-108 | the children are appended in order and the earlier ones are unchanged |
| Sections.FromElements | src/rooster/_changelog.py:32-59 | the loop computes `Group`: a titled heading of the level opens a section, a shallower heading closes the open one, deeper headings and other non-blank blocks join the open section, and blank lines are dropped |
| Sections.FindOpening | src/rooster/_changelog.py:38-52 | the first titled heading of the level from a position, or none of them is one |
| Sections.NextBoundary | src/rooster/_changelog.py:38-57 | the first block from a position that ends a section, and none before it does |
| Sections.GroupSnoc | src/rooster/_changelog.py:39-59 | grouping one more block is one step of the source's loop: a new section, a block joining the open one, or no change |
| Sections.GroupTitles | src/rooster/_changelog.py:39-59 | the section titles are the titles of the opening headings, in order, and no section keeps a heading of its own level or shallower, or a blank line |
| EntrySections.Entries | src/rooster/_changelog.py:282-290 | the entries are the items of every list among the section's children, in order |
| EntrySections.ListItemsConcat | src/rooster/_changelog.py:282-290 | the entries of two runs of blocks are the entries of each, concatenated |
| EntrySections.FromPullRequests | src/rooster/_changelog.py:292-319 | raises TypeError exactly when the key has no configured title; otherwise a section of that title and level whose children are a blank line, the list of change lines and a blank line |
| EntrySections.ChangeLines | src/rooster/_changelog.py:304-307 | one change line per pull request, in order |
| EntrySections.ParseChangeLines | src/rooster/_changelog.py:313-317 | the change lines read back as one list whose items are the pull requests' change items, or as nothing when there are none |
| EntrySections.EntriesOfPullRequests | src/rooster/_changelog.py:282-319 | the entries of a section built from pull requests are exactly their change items |
| VersionSections.New | src/rooster/_changelog.py:186-189 | fails with InvalidVersion exactly when the title is not a version; otherwise keeps the title, level and children, and its version parses from the title |
| VersionSections.NewOfRendered | src/rooster/_changelog.py:186-189 | a section titled with a rendered version always builds, with that version |
| VersionSections.SectionsOf | src/rooster/_changelog.py:192-199 | the entry sections are the groups one level below the version section, with their titles and children |
| VersionSections.AllEntries | src/rooster/_changelog.py:201-205 | the entries of every entry section, in order |
| VersionSections.AllEntriesComplete | src/rooster/_changelog.py:201-205 | when the children open with an entry heading and hold no shallower heading, `all_entries` yields every list item of the children |
| VersionSections.MatchIndex | src/rooster/_changelog.py:227-230 | the first section key among the labels, or none of the keys is a label |
| VersionSections.Destination | src/rooster/_changelog.py:221-232 | an ignored pull request goes nowhere; otherwise it goes to the first section whose key it carries, or to the unknown section when it carries none |
| VersionSections.DestinationNone | src/rooster/_changelog.py:221-232 | a pull request has no section exactly when it is ignored, or when it carries no section key and there is no unknown section (the case that raises KeyError) |
| VersionSections.BucketMembership | src/rooster/_changelog.py:221-232 | a pull request is in a section's bucket exactly when it is one of the pull requests and is filed under that section |
| VersionSections.Dedup | src/rooster/_github.py:18-25 | duplicates are removed by whole-value equality of the frozen `PullRequest`; the result holds the same pull requests, each once |
| VersionSections.InsertByTitle | src/rooster/_changelog.py:240 | inserting keeps the list sorted by title and adds exactly one pull request |
| VersionSections.SortByTitle | src/rooster/_changelog.py:240 | the result is sorted by title and is a permutation of the input |
| VersionSections.SectionBlocksOf | src/rooster/_changelog.py:234-249 | the heading and children of a built entry section are the blocks of its bucket, sorted by title |
| VersionSections.FileBuckets | src/rooster/_changelog.py:218-232 | the filing loop raises KeyError for the unknown section exactly when some pull request carries no section key and there is no unknown section; otherwise each section's bucket holds exactly the pull requests filed under it, in order |
| VersionSections.ListSections | src/rooster/_changelog.py:234-249 | the loop over the table appends, in table order, the heading and list of each non-empty bucket |
| VersionSections.ListedChildren | src/rooster/_changelog.py:218-249 | the children listed from the filed buckets are the ones each section's own bucket defines |
| VersionSections.FromPullRequests | src/rooster/_changelog.py:207-259 | raises KeyError for the unknown section exactly when some pull request carries no section key and there is no unknown section; otherwise a section titled with the version, whose children are each non-empty bucket's heading and list in table order |
| VersionSections.AsDocument | src/rooster/_changelog.py:261-266 | a new document holding the section's heading, a blank line, then its children |
| Changelogs.NewChangelog | src/rooster/_changelog.py:169-175 | a new document holding the `Changelog` heading and two blank lines |
| Changelogs.NewChangelogHasNoVersions | src/rooster/_changelog.py:113-122 | a new changelog has no version sections |
| Changelogs.VersionsOf | src/rooster/_changelog.py:113-122 | fails exactly when some second-level section title is not a version, naming the first such title; otherwise one version section per group, in order |
| Changelogs.ListVersions | src/rooster/_changelog.py:113-122 | `versions()` of the document is `VersionsOf` of its grouped children |
| Changelogs.SectionFor | src/rooster/_changelog.py:124-128 | the first section with an equal version, or none has one |
| Changelogs.FindSection | src/rooster/_changelog.py:126-128 | the loop returns the first section of the version, or none when no section has it |
| Changelogs.GetVersionSection | src/rooster/_changelog.py:124-128 | propagates the error of an unreadable section title; otherwise the first section of the version, or none |
| Changelogs.Scan | src/rooster/_changelog.py:134-146 | the scan of the headings stops before an older version, at a replace range of the same version, or runs out; every index it returns lies within the blocks |
| Changelogs.ScanHeadings | src/rooster/_changelog.py:134-146 | the loop ends with `remove` and the last index as `Scan` says, or raises its error |
| Changelogs.InsertedSettled | src/rooster/_changelog.py:147-167 | how the loop's variables decide the outcome: one pending index raises IndexError, no block at all raises UnboundLocalError, two indices replace that range, none inserts at the last index |
| Changelogs.RemoveRange | src/rooster/_changelog.py:150-155 | the children in the range are removed and the rest kept in order |
| Changelogs.PlaceRun | src/rooster/_changelog.py:157-167 | the section's heading, a blank line and its children (or the "No changes" placeholder) are spliced in at the index |
| Changelogs.PlaceholderInserts | src/rooster/_changelog.py:160-165 | the placeholder inserts give the same blocks as a run that holds them |
| Changelogs.InsertVersionSection | src/rooster/_changelog.py:130-167 | the children become `Inserted` of the old children, or stay unchanged when it raises, and the error is returned |
| ChangelogOrder.ScanOutcome | src/rooster/_changelog.py:134-146 | on well-formed blocks the scan never fails, and its outcome is explained by the headings: newer ones before, then an older one, a same-version range, or the end |
| ChangelogOrder.ScanSkipsNewer | src/rooster/_changelog.py:140-146 | headings newer than the section do not change the scan |
| ChangelogOrder.InsertBeforeOlder | src/rooster/_changelog.py:140-144 | a new version goes right before the first older version heading when all earlier ones are newer |
| ChangelogOrder.ReplaceSameVersion | src/rooster/_changelog.py:136-139 | an existing section of the same version that is followed by another version heading is replaced, up to that heading |
| ChangelogOrder.InsertBeforeLastBlock | src/rooster/_changelog.py:157-159 | when every version heading is newer, the section goes before the last block |
| ChangelogOrder.InsertIntoEmpty | src/rooster/_changelog.py:130-159 | inserting into an empty document raises UnboundLocalError |
| ChangelogOrder.ReplaceLastRaises | src/rooster/_changelog.py:147-155 | replacing the last version section of the document raises IndexError |
| ChangelogOrder.ReplaceLastExample | src/rooster/_changelog.py:147-155 | a concrete document whose only section is `1.0`: re-inserting `1.0` raises IndexError |
| ChangelogOrder.LevelVersionsConcat | src/rooster/_changelog.py:113-122 | the version headings of two runs of blocks are those of each, concatenated |
| ChangelogOrder.DescendingAround | src/rooster/_changelog.py:140-144 | a version newer than every later one and older than every earlier one keeps a descending list descending |
| ChangelogOrder.SpliceDescending | src/rooster/_changelog.py:147-167 | splicing the run between newer and older version headings keeps the headings descending |
| ChangelogOrder.InsertKeepsDescending | src/rooster/_changelog.py:130-167 | on a changelog whose versions descend and whose last block is not a version heading, every successful insertion keeps them descending |
| ChangelogOrder.IntendedInserted | src/rooster/_changelog.py:147-155 | corrected insertion: it agrees with the source wherever the source succeeds or the scan fails |
| ChangelogOrder.IntendedReplacesLast | src/rooster/_changelog.py:147-155 | corrected insertion replaces the last version section, up to the end of the document |
| ChangelogOrder.IntendedReplaceExample | src/rooster/_changelog.py:147-155 | on the document of `ReplaceLastExample`, corrected insertion replaces the old `1.0` section with the new one |
| ChangelogOrder.IntendedKeepsDescending | src/rooster/_changelog.py:130-167 | corrected insertion always succeeds on a non-empty, descending changelog whose last block is not a version heading, and keeps it descending |
| ChangelogText.Least | src/rooster/_changelog.py:341 | the least author of a non-empty set in Python's string order |
| ChangelogText.LeastExists | src/rooster/_changelog.py:341 | every non-empty set of authors has a least one in Python's string order |
| ChangelogText.SortedOf | src/rooster/_changelog.py:341 | `sorted()` of a set, as a specification: strictly increasing and holding exactly the set's elements |
| ChangelogText.Sorted | src/rooster/_changelog.py:341 | `sorted()` of a set: strictly increasing and holding exactly the set's elements |
| ChangelogText.SortedUnique | src/rooster/_changelog.py:341 | two strictly increasing lists with the same elements are equal, so the contributor order is determined |
| ChangelogText.GenerateContributors | src/rooster/_changelog.py:330-343 | empty when no author remains after the ignored authors; otherwise the header, then one link line per remaining author, in `sorted()` order |
| ChangelogText.AppendLines | src/rooster/_changelog.py:341-342 | the loop appends one link line per author, in the given order |
| ChangelogText.EnsureSpacing | src/rooster/_changelog.py:346-352 | the result has no three newlines in a row and ends in exactly one newline; only newlines change; well-spaced text is unchanged |
| ChangelogText.StripOneNewline | src/rooster/_changelog.py:351-352 | stripping trailing newlines and adding one back gives a well-spaced text back unchanged |
| ChangelogText.HeadingReadBack | src/rooster/_changelog.py:355-366 | a line `## <version>` is read back as that version, ahead of the versions of the rest |
| ChangelogText.OtherLineSkipped | src/rooster/_changelog.py:355-366 | a line that is not a version heading contributes no version |
| ChangelogText.Slice | src/rooster/_changelog.py:389-391 | Python slicing: empty when the end is before the start, otherwise the text between them |
| ChangelogText.ExtractEntry | src/rooster/_changelog.py:369-391 | none exactly when the version's heading is absent; raises ValueError exactly when the previous version exists but its heading does not; the entry is a prefix of the text from the heading; with no previous version it runs to the end |
| ChangelogText.ExtractEntryUpToPrevious | src/rooster/_changelog.py:382-391 | when the previous version's heading follows, the entry runs exactly up to it and does not contain it |
| ChangelogText.StandaloneAsWrittenUnchanged | src/rooster/_changelog.py:394-402 | as written, any entry without two spaces in a row is returned unchanged |
| ChangelogText.StandaloneAsWrittenExample | src/rooster/_changelog.py:394-402 | as written, the entry `## 1.0` comes back with its version heading |
| ChangelogText.IntendedStandaloneReplacesHeading | src/rooster/_changelog.py:394-402 | corrected conversion: the version heading becomes the generic `Changes` heading and note, and the body is kept |
| ChangelogText.IntendedStandaloneExample | src/rooster/_changelog.py:394-402 | corrected conversion of the entry `## 1.0` drops its version heading |
| Versions.LessIrreflexive | src/rooster/_versions.py:44-64 | version order is irreflexive |
| Versions.LessTransitive | src/rooster/_versions.py:44-64 | version order is transitive |
| Versions.LessTotal | src/rooster/_versions.py:44-64 | any two versions are ordered or equal (trailing zeros ignored) |
| Versions.LessAsymmetric | src/rooster/_versions.py:44-64 | version order is asymmetric |
| Versions.ParseRender | src/rooster/_versions.py:28-41 | parsing a rendered version gives the version back |
| Versions.ParseVersions | src/rooster/_versions.py:28-41 | the loop keeps the strings that parse as versions, in order, and skips the others |
| Versions.ParsedVersionsMembership | src/rooster/_versions.py:28-41 | a version is in the result exactly when some input string parses to it |
| Versions.LatestVersion | src/rooster/_versions.py:44-50 | none exactly for no versions; otherwise one of them that no other exceeds |
| Versions.PreviousVersion | src/rooster/_versions.py:53-64 | none exactly when no version is older than the given one; otherwise the greatest of the older ones |
| Versions.BumpVersion | src/rooster/_versions.py:67-99 | raises IndexError exactly for fewer than three release components; otherwise keeps the epoch and length, increments the chosen component, zeroes the later ones, and the result is newer |
| Versions.BumpIsNewer | src/rooster/_versions.py:74-86 | a release that first grows at one component is newer, whatever the later components |
| GitHub.UrlSegments | src/rooster/_github.py:27-31 | a pull request's URL splits back into its owner, repository and number |
| GitHub.LtByNumber | src/rooster/_github.py:33-34 | `__lt__` is irreflexive and asymmetric, and two pull requests are unordered exactly when their numbers agree |
| GitHub.LtIgnoresOtherFields | src/rooster/_github.py:18-34 | two different pull requests can be unordered by `__lt__` |
| GitHub.ChangeItem | src/rooster/_config.py:45-47 | the default change item starts with the title and ends with the linked URL |
| GitHub.ChangeItemMarker | src/rooster/_config.py:45-47 | the default change item mentions `[#N]` for its pull request |
| GitHub.StripGitSuffix | src/rooster/_github.py:125-126 | a trailing `.git` is removed and nothing else changes |
| GitHub.ParseRemoteUrl | src/rooster/_github.py:113-127 | an SSH URL fails with ValueError exactly when its path does not have exactly one `/`; any other URL fails with IndexError exactly when it has no `/`; owner and repository never contain `/` |
| GitHub.ParseSshRemote | src/rooster/_github.py:113-127 | `git@github.com:owner/repo[.git]` gives back the owner and the repository |
| GitHub.ParseHttpsRemote | src/rooster/_github.py:113-127 | `https://github.com/owner/repo[.git]` gives back the owner and the repository |
| Config.ToKebabChars | src/rooster/_config.py:19-21 | every `_` becomes `-`, every other character is kept, and no `_` remains |
| Config.ToKebabIdempotent | src/rooster/_config.py:19-21 | converting twice is converting once |
| Config.SectionTitle | src/rooster/_config.py:41 | a title exactly for a configured key, the one configured for it |
| Config.GlobalRequiredLabels | src/rooster/_config.py:96-97 | exactly the bare labels of `require-labels` |
| Config.GlobalIgnoredLabels | src/rooster/_config.py:99-102 | exactly the bare labels of `ignore-labels` together with `changelog-ignore-labels` |
| Config.FirstSubmodule | src/rooster/_config.py:86-94 | the first submodule entry with the name, or none has it |
| Config.RequiredLabelsForSubmodule | src/rooster/_config.py:86-89 | none exactly when no `require-labels` entry names the path's last component; otherwise the labels of the first such entry, every earlier entry naming another submodule or being global |
| Config.IgnoredLabelsForSubmodule | src/rooster/_config.py:91-94 | none exactly when no `ignore-labels` entry names the path's last component; otherwise the labels of the first such entry, every earlier entry naming another submodule or being global |
| Config.FirstSubmoduleWins | src/rooster/_config.py:86-94 | whatever precedes and follows it, the first entry naming the submodule decides its labels |
| Config.DefaultLabels | src/rooster/_config.py:27-59 | by default there are no required or ignored labels, for the project or any submodule, and `dependabot` is the ignored author |
| Cli.SelectedSections | src/rooster/_cli.py:51-55 | the configured keys, or the `--only-section` names when given, less the `--without-section` names |
| Cli.CollectLabels | src/rooster/_cli.py:77-80 | exactly the labels some pull request carries |
| Cli.AnyLabel | src/rooster/_cli.py:87-97 | true exactly when a configured label is carried |
| Cli.DetectBump | src/rooster/_cli.py:82-102 | an explicit bump wins; otherwise minor when a minor label is carried, major when only a major label is, patch when neither is |
| Cli.BreakingFeatureIsMinor | src/rooster/_cli.py:82-102 | with the default labels, a pull request labelled both `breaking` and `feature` gives a minor bump |
| Cli.NewVersion | src/rooster/_cli.py:104-108 | without tags the bump starts from 0.0.0 and succeeds (giving 0.0.1, 0.1.0 or 1.0.0); with tags it is `bump_version` of the latest tag: IndexError exactly when that release has fewer than three components, otherwise the same epoch and length with the chosen component bumped; a successful bump is newer than every tag |
| Cli.Unmentioned | src/rooster/_cli.py:222-226 | the kept pull requests are among the input, and no entry mentions them |
| Cli.UnmentionedComplete | src/rooster/_cli.py:222-226 | no pull request that no entry mentions is dropped |
| Cli.UnmentionedConcat | src/rooster/_cli.py:222-226 | filtering a concatenation filters each part, so the original order is kept |
| Cli.IsMentioned | src/rooster/_cli.py:225 | true exactly when some entry contains the pull request's `[#N]` marker |
| Cli.FilterMentioned | src/rooster/_cli.py:221-227 | the loops keep exactly the unmentioned pull requests, and the count skipped is the number dropped |
| Cli.SkipExisting | src/rooster/_cli.py:217-231 | an unreadable changelog propagates its error; with no section for the version every pull request is kept; otherwise those its entries mention are dropped and counted |

## Left out

- Parsing and rendering Markdown (marko) is not modelled. The document is
  already a list of blocks: headings, blank lines, lists (their item texts),
  paragraphs and HTML. Entry text is the text of a list item.
- File and terminal I/O, `Changelog.from_file`, `to_markdown`, `Config.from_directory` and `from_path` are left out. So is the TOML reading and pydantic's key aliasing, beyond `to_kebab` itself.
- `_http.py`, `_cache.py`, the GitHub GraphQL and REST calls, git tags and
  commits: they are network, cache and subprocess work. Their results (pull
  requests, version strings, the remote URL) are parameters here.
- Cli.SkipExisting: the source (`src/rooster/_cli.py:225`) applies `in` to the `Entry` dataclass objects that `all_entries` yields. `Entry` (`src/rooster/_changelog.py:321-327`) defines no `__contains__`, `__iter__` or `__getitem__`, so the original raises TypeError whenever there is at least one pull request and the existing section has at least one entry. With no pull requests or no entries every pull request is kept, as in the model. The model tests `[#N]` against each entry's text instead, which is what the filter evidently means; the TypeError path is not modelled.
- The `sections=` argument that `_cli.py:120-126` passes to `VersionSection.from_pull_requests`, which does not accept it, is not modelled. The model's `FromPullRequests` builds every configured section.
- The call `versions_from_git_tags(config, repo)` at `_cli.py:58` passes two arguments to a one-argument function. It is modelled as the list of tag versions.
- `PullRequest.__lt__` is modelled (GitHub.Lt), but nothing in the core sorts by it. `from_pull_requests` sorts by title.
- VersionSections.Dedup: `set(pull_requests)` (`src/rooster/_changelog.py:221`) has no defined iteration order, and `sorted(key=title)` (line 240) is stable, so the source leaves the order among pull requests with equal titles unspecified. The model pins one: Dedup keeps first occurrences and the insertion by title is stable, so among equal titles the original input order is kept. Where titles differ, the order is the sorted one in both.
- Only the default `change-template` is modelled, and `trim-title-prefixes` is not. The rendering of a template from arbitrary configuration strings is not modelled.
- Versions: only `[N!]N(.N)*` is modelled; pre-, post-, dev- and local segments and `cargo` versions are not. Strings of other forms are read as invalid, as `packaging` would read most of them.
- The `pre` member of `_config.py`'s `BumpType`, which only `default-bump-type` uses, is not modelled. `_versions.py`'s `BumpType`, the one the bump reads, has no such member.
- Config: `section-labels`, `version-format`, `submodules`, `version-files` and their `VersionFile` and `SubstitutionEntry` records are not modelled. They feed parts of the release command outside this model.
- ChangelogOrder.InsertKeepsDescending: it assumes the last block is not a version heading. When it is one, the source's fall-through insertion goes before that last heading and the order is lost. That case is outside the proved property.
- ChangelogText.Sorted: `sorted()` is modelled by repeated selection of the least element, a different algorithm with the same result (SortedUnique ties it to SortedOf).
- `entry_to_standalone` is modelled as written and corrected. Nothing in the core calls it.
- `_git.py`, `_pyproject.py` and `_testing.py` are not part of this model.

## Findings

| source | as written | input that shows it | evidently intended | confidence | as-written member | corrected member |
|---|---|---|---|---|---|---|
| src/rooster/_changelog.py:147-155 | when the section being replaced is the last version section, `remove` holds one index and `remove[1]` raises IndexError | a changelog `## 1.0` / `Fixed`, inserting a new `1.0` section | replace the old section up to the end of the document | not executed | ChangelogOrder.ReplaceLastRaises | ChangelogOrder.IntendedInserted |
| src/rooster/_changelog.py:394-402 | the pattern is `"## " + " " + version`, two spaces after the hashes, which no written heading has, so the entry comes back unchanged | the entry `## 1.0` followed by a blank line and `- Fixed a bug` | replace the `## <version>` heading with the `## Changes` heading and note | not executed | ChangelogText.StandaloneAsWrittenUnchanged | ChangelogText.IntendedStandaloneReplacesHeading |
