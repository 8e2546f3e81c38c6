/**
 * The text-level helpers of `_changelog.py`: the contributors section, the
 * spacing clean-up, reading the version headings back out of the changelog
 * text, and cutting one version's entry out of it.
 */
module ChangelogText {
  import opened Results
  import opened Text
  import opened Versions
  import opened GitHub
  import Config

  /** `VERSION_HEADING_PREFIX`: a version heading is a level-2 Markdown heading. */
  const VersionHeadingPrefix: string := "## "

  // ---------------------------------------------------------------------------
  // `generate_contributors`
  // ---------------------------------------------------------------------------

  /** The set of authors of the pull requests, less the ignored ones. */
  function Authors(prs: seq<PullRequest>, ignored: set<string>): set<string> {
    set k | 0 <= k < |prs| && prs[k].author !in ignored :: prs[k].author
  }

  predicate StrictlySorted(order: seq<string>) {
    forall i, j :: 0 <= i < j < |order| ==> StrLess(order[i], order[j])
  }

  function ContributorsHeader(level: nat): string {
    Repeat('#', level) + " Contributors\n"
  }

  function ContributorLine(author: string): string {
    "- [@" + author + "](" + GitHubPrefix + author + ")\n"
  }

  /** One line per author, in the given order. */
  function ContributorLines(order: seq<string>): string {
    if order == [] then ""
    else ContributorLines(order[..|order| - 1]) + ContributorLine(order[|order| - 1])
  }

  /** `m` is the least element of `s` in Python's string order. */
  predicate IsLeast(s: set<string>, m: string) {
    m in s && forall x :: x in s && x != m ==> StrLess(m, x)
  }

  /** Every non-empty set of strings has a least element. */
  lemma {:induction false} LeastExists(s: set<string>)
    requires s != {}
    ensures exists m :: IsLeast(s, m)
    decreases |s|
  {
    var y :| y in s;
    var rest := s - {y};
    assert s == rest + {y};
    if rest == {} {
      assert IsLeast(s, y);
    } else {
      LeastExists(rest);
      var m :| IsLeast(rest, m);
      LeastAdd(rest, m, y);
    }
  }

  /** Adding one string to a set keeps its least element or makes the new one least. */
  lemma LeastAdd(rest: set<string>, m: string, y: string)
    requires IsLeast(rest, m) && y !in rest
    ensures IsLeast(rest + {y}, if StrLess(y, m) then y else m)
  {
    StrLessTotal(y, m);
    if StrLess(y, m) {
      forall x | x in rest + {y} && x != y
        ensures StrLess(y, x)
      {
        if x != m {
          StrLessTransitive(y, m, x);
        }
      }
    } else {
      assert StrLess(m, y);
    }
  }

  /** The least element of a non-empty set of strings. */
  ghost function LeastOf(s: set<string>): (m: string)
    requires s != {}
    ensures IsLeast(s, m)
  {
    LeastExists(s);
    var m :| IsLeast(s, m);
    m
  }

  /** `sorted()` of a set of strings: its least element, then the rest sorted. */
  ghost function SortedOf(s: set<string>): (order: seq<string>)
    ensures StrictlySorted(order)
    ensures forall a :: a in order <==> a in s
    decreases |s|
  {
    if s == {} then []
    else
      var m := LeastOf(s);
      var rest := SortedOf(s - {m});
      assert forall j :: 0 <= j < |rest| ==> StrLess(m, rest[j]) by {
        forall j | 0 <= j < |rest|
          ensures StrLess(m, rest[j])
        {
          assert rest[j] in rest;
        }
      }
      [m] + rest
  }

  /** The least of a non-empty set of strings, in Python's string order. */
  method Least(s: set<string>) returns (m: string)
    requires s != {}
    ensures IsLeast(s, m)
  {
    m :| m in s;
    var rest := s - {m};
    while rest != {}
      invariant rest <= s && m in s && m !in rest
      invariant forall x :: x in s - rest && x != m ==> StrLess(m, x)
      decreases |rest|
    {
      var x :| x in rest;
      StrLessTotal(x, m);
      if StrLess(x, m) {
        forall y | y in s - rest && y != x
          ensures StrLess(x, y)
        {
          if y != m {
            StrLessTransitive(x, m, y);
          }
        }
        m := x;
      }
      rest := rest - {x};
    }
  }

  /** Python's `sorted` on a set of strings. */
  method Sorted(s: set<string>) returns (order: seq<string>)
    ensures StrictlySorted(order)
    ensures forall a :: a in order <==> a in s
  {
    order := [];
    var rest := s;
    while rest != {}
      invariant StrictlySorted(order)
      invariant forall a :: a in s <==> a in order || a in rest
      invariant forall i, x :: 0 <= i < |order| && x in rest ==> StrLess(order[i], x)
      decreases |rest|
    {
      var m := Least(rest);
      forall i, x | 0 <= i < |order| + 1 && x in rest - {m}
        ensures StrLess((order + [m])[i], x)
      {
        if i == |order| {
          assert (order + [m])[i] == m;
        } else {
          assert (order + [m])[i] == order[i];
        }
      }
      order := order + [m];
      rest := rest - {m};
    }
  }

  /**
   * `generate_contributors`: nothing when every author is ignored; otherwise
   * the heading and one line per author, authors sorted and each listed once.
   */
  method GenerateContributors(prs: seq<PullRequest>, config: Config.Config, level: nat) returns (contributors: string)
    ensures Authors(prs, config.changelogIgnoreAuthors) == {} ==> contributors == ""
    ensures Authors(prs, config.changelogIgnoreAuthors) != {} ==>
      contributors == ContributorsHeader(level) + ContributorLines(SortedOf(Authors(prs, config.changelogIgnoreAuthors)))
  {
    contributors := "";
    var authors := Authors(prs, config.changelogIgnoreAuthors);
    if authors != {} {
      var sorted := Sorted(authors);
      assert sorted == SortedOf(authors) by {
        SortedUnique(sorted, SortedOf(authors));
      }
      contributors := AppendLines(contributors + ContributorsHeader(level), sorted);
    }
  }

  /** The loop of `generate_contributors` that adds one link line per author, in order. */
  method AppendLines(text: string, order: seq<string>) returns (r: string)
    ensures r == text + ContributorLines(order)
  {
    r := text;
    var i := 0;
    while i < |order|
      invariant 0 <= i <= |order|
      invariant r == text + ContributorLines(order[..i])
    {
      assert order[..i + 1][..i] == order[..i];
      r := r + ContributorLine(order[i]);
      i := i + 1;
    }
    assert order[..i] == order;
  }

  /** Sorting a set has one answer: the contributors text depends on the set of authors alone. */
  lemma {:induction false} SortedUnique(a: seq<string>, b: seq<string>)
    requires StrictlySorted(a) && StrictlySorted(b)
    requires forall x :: x in a <==> x in b
    ensures a == b
    decreases |a|
  {
    if a != [] {
      assert a[0] in b;
      assert b != [] && b[0] in a;
      if a[0] != b[0] {
        var i :| 0 <= i < |a| && a[i] == b[0];
        var j :| 0 <= j < |b| && b[j] == a[0];
        assert StrLess(a[0], a[i]) && StrLess(b[0], b[j]);
        StrLessTransitive(a[0], b[0], a[0]);
        StrLessIrreflexive(a[0]);
      }
      forall x
        ensures x in a[1..] <==> x in b[1..]
      {
        if x in a[1..] {
          var i :| 1 <= i < |a| && a[i] == x;
          assert StrLess(a[0], x);
          StrLessIrreflexive(x);
          assert x in a && x in b;
          var j :| 0 <= j < |b| && b[j] == x;
          assert j != 0 && b[1..][j - 1] == x;
        }
        if x in b[1..] {
          var j :| 1 <= j < |b| && b[j] == x;
          assert StrLess(b[0], x);
          StrLessIrreflexive(x);
          assert x in b && x in a;
          var i :| 0 <= i < |a| && a[i] == x;
          assert i != 0 && a[1..][i - 1] == x;
        }
      }
      SortedUnique(a[1..], b[1..]);
      assert a == [a[0]] + a[1..] && b == [b[0]] + b[1..];
    } else {
      HeadIn(b);
    }
  }

  lemma HeadIn<T>(s: seq<T>)
    ensures s != [] ==> s[0] in s
  {
  }

  // ---------------------------------------------------------------------------
  // `ensure_spacing`
  // ---------------------------------------------------------------------------

  const TripleNewline: string := "\n\n\n"

  /** At most one blank line in a row, and exactly one newline at the end. */
  predicate Spaced(s: string) {
    !Contains(s, TripleNewline) && |s| > 0 && s[|s| - 1] == '\n' && (|s| == 1 || s[|s| - 2] != '\n')
  }

  /**
   * `ensure_spacing`: the result is spaced, it keeps every character other than
   * a newline in order, and a text that is already spaced comes back unchanged.
   */
  method EnsureSpacing(changelog: string) returns (r: string)
    ensures Spaced(r)
    ensures Without(r, '\n') == Without(changelog, '\n')
    ensures Spaced(changelog) ==> r == changelog
  {
    var s := changelog;
    NewlinesOnly();
    while Contains(s, TripleNewline)
      invariant Without(s, '\n') == Without(changelog, '\n')
      invariant s != changelog ==> !Spaced(changelog)
      decreases |s|
    {
      ReplaceShrinks(s, TripleNewline, "\n\n");
      ReplaceKeepsOthers(s, TripleNewline, "\n\n", '\n');
      s := Replace(s, TripleNewline, "\n\n");
    }
    r := RStrip(s, '\n') + "\n";
    SpacedAfterStrip(s);
    StripKeepsOthers(s);
    if Spaced(changelog) {
      StripOneNewline(s);
    }
  }

  lemma NewlinesOnly()
    ensures Without(TripleNewline, '\n') == [] && Without("\n\n", '\n') == [] && Without("\n", '\n') == []
  {
    WithoutOnly(TripleNewline, '\n');
    WithoutOnly("\n\n", '\n');
    WithoutOnly("\n", '\n');
  }

  lemma {:induction false} WithoutOnly(s: string, c: char)
    requires forall k :: 0 <= k < |s| ==> s[k] == c
    ensures Without(s, c) == []
    decreases |s|
  {
    if s != [] {
      WithoutOnly(s[1..], c);
    }
  }

  /** Stripping the trailing newlines and putting one back keeps the other characters. */
  lemma StripKeepsOthers(s: string)
    ensures Without(RStrip(s, '\n') + "\n", '\n') == Without(s, '\n')
  {
    var t := RStrip(s, '\n');
    var tail := s[|t|..];
    assert Without(t + "\n", '\n') == Without(t, '\n') by {
      NewlinesOnly();
      WithoutConcat(t, "\n", '\n');
      assert Without(t, '\n') + [] == Without(t, '\n');
    }
    assert Without(s, '\n') == Without(t, '\n') by {
      assert s == t + tail;
      WithoutConcat(t, tail, '\n');
      WithoutOnly(tail, '\n');
      assert Without(t, '\n') + [] == Without(t, '\n');
    }
  }

  /** Stripping the trailing newlines and putting one back makes no run of three. */
  lemma SpacedAfterStrip(s: string)
    requires !Contains(s, TripleNewline)
    ensures Spaced(RStrip(s, '\n') + "\n")
  {
    var t := RStrip(s, '\n');
    var r := t + "\n";
    NoTripleAfterStrip(s);
    assert r[|r| - 1] == '\n';
    if |r| > 1 {
      assert r[|r| - 2] == t[|t| - 1];
    }
  }

  lemma NoTripleAfterStrip(s: string)
    requires !Contains(s, TripleNewline)
    ensures !Contains(RStrip(s, '\n') + "\n", TripleNewline)
  {
    var t := RStrip(s, '\n');
    var r := t + "\n";
    forall j: nat | j + 3 <= |r|
      ensures !OccursAt(r, TripleNewline, j)
    {
      if j + 3 <= |t| {
        assert r[j..j + 3] == s[j..j + 3];
        assert !OccursAt(s, TripleNewline, j);
      } else {
        assert r[j..j + 3][1] == r[j + 1] == t[|t| - 1];
      }
    }
  }

  lemma StripOneNewline(s: string)
    requires Spaced(s)
    ensures RStrip(s, '\n') + "\n" == s
  {
    var init := s[..|s| - 1];
    assert init == [] || init[|init| - 1] != '\n';
    assert RStrip(init, '\n') == init;
    assert RStrip(s, '\n') == RStrip(init, '\n');
    assert init + "\n" == s;
  }

  // ---------------------------------------------------------------------------
  // `get_versions_from_changelog`
  // ---------------------------------------------------------------------------

  /** The stripped titles of the lines that start with the version heading prefix, in order. */
  function HeadingTitles(lines: seq<string>): seq<string> {
    if lines == [] then []
    else
      (if StartsWith(lines[0], VersionHeadingPrefix) then [Strip(lines[0][2..])] else [])
      + HeadingTitles(lines[1..])
  }

  /** `get_versions_from_changelog`: the versions named by the version headings, in order. */
  function VersionsIn(changelog: string): seq<Version> {
    ParsedVersions(HeadingTitles(SplitLines(changelog)))
  }

  predicate OneLine(line: string) {
    forall k :: 0 <= k < |line| ==> !IsLineBreak(line[k])
  }

  /** Digits, dots and bangs: the characters a rendered version is made of. */
  predicate VersionChars(title: string) {
    forall k :: 0 <= k < |title| ==> IsDigit(title[k]) || title[k] == '.' || title[k] == '!'
  }

  /** The line of a version heading is one line whose stripped title is the version's text. */
  lemma HeadingLine(v: Version)
    requires |v.release| > 0
    ensures OneLine(VersionHeadingPrefix + Render(v))
    ensures StartsWith(VersionHeadingPrefix + Render(v), VersionHeadingPrefix)
    ensures Strip((VersionHeadingPrefix + Render(v))[2..]) == Render(v)
  {
    RenderAlphabet(v);
    RenderNonEmpty(v);
    TitledLine(Render(v));
  }

  /** A heading line over a non-empty title of version characters. */
  lemma TitledLine(title: string)
    requires |title| > 0 && VersionChars(title)
    ensures OneLine(VersionHeadingPrefix + title)
    ensures StartsWith(VersionHeadingPrefix + title, VersionHeadingPrefix)
    ensures Strip((VersionHeadingPrefix + title)[2..]) == title
  {
    var line := VersionHeadingPrefix + title;
    assert OneLine(line) by {
      forall k | 0 <= k < |line|
        ensures !IsLineBreak(line[k])
      {
        if k >= 3 {
          assert line[k] == title[k - 3];
        }
      }
    }
    assert line[..3] == VersionHeadingPrefix;
    assert Strip(line[2..]) == title by {
      assert line[2..] == [' '] + title;
      assert !IsSpace(title[0]) && !IsSpace(title[|title| - 1]);
      assert TrimStart(line[2..]) == TrimStart(title) by {
        assert line[2..][1..] == title;
      }
      StripNoSpace(title);
    }
  }

  /** A version heading written for `v` is read back as `v`. */
  lemma HeadingReadBack(v: Version, rest: string)
    requires |v.release| > 0
    ensures VersionsIn(VersionHeadingPrefix + Render(v) + "\n" + rest) == [v] + VersionsIn(rest)
  {
    var title := Render(v);
    var line := VersionHeadingPrefix + title;
    HeadingLine(v);
    SplitLinesLine(line, rest);
    var lines := SplitLines(rest);
    assert ([line] + lines)[1..] == lines;
    var titles := HeadingTitles(lines);
    assert HeadingTitles([line] + lines) == [title] + titles;
    ParseRender(v);
    assert ([title] + titles)[1..] == titles;
    assert ParsedVersions([title] + titles) == [v] + ParsedVersions(titles);
  }

  /** A line that is not a version heading contributes no version. */
  lemma OtherLineSkipped(line: string, rest: string)
    requires OneLine(line) && !StartsWith(line, VersionHeadingPrefix)
    ensures VersionsIn(line + "\n" + rest) == VersionsIn(rest)
  {
    SplitLinesLine(line, rest);
    var lines := SplitLines(rest);
    assert ([line] + lines)[1..] == lines;
    assert HeadingTitles([line] + lines) == HeadingTitles(lines);
  }

  // ---------------------------------------------------------------------------
  // `extract_entry`
  // ---------------------------------------------------------------------------

  /** The heading that opens the entry of `v` in the changelog text. */
  function EntryHeading(v: Version): string {
    VersionHeadingPrefix + Render(v) + "\n\n"
  }

  /** Python's `s[start:end]` for indexes within `s`: empty when `end` comes first. */
  function Slice(s: string, start: nat, end: nat): (r: string)
    requires start <= |s| && end <= |s|
    ensures end < start ==> r == ""
    ensures start <= end ==> r + s[end..] == s[start..]
  {
    if end < start then "" else s[start..end]
  }

  /**
   * `extract_entry`: the text from the first occurrence of the version's
   * heading up to the first occurrence of the previous version's heading, or
   * to the end when there is no previous version; None when the heading is
   * not there; ValueError when the previous version's heading is not there.
   */
  function ExtractEntry(changelog: string, version: Version): (r: Result<Option<string>>)
    ensures r == Success(None) <==> !Contains(changelog, EntryHeading(version))
    ensures r.Failure? <==>
      Contains(changelog, EntryHeading(version))
      && PreviousVersion(VersionsIn(changelog), version).Some?
      && !Contains(changelog, EntryHeading(PreviousVersion(VersionsIn(changelog), version).value))
    ensures r.Failure? ==> r.error == ValueError
    ensures r.Success? && r.value.Some? ==>
      StartsWith(changelog[IndexOf(changelog, EntryHeading(version)).value..], r.value.value)
    ensures Contains(changelog, EntryHeading(version)) && PreviousVersion(VersionsIn(changelog), version).None? ==>
      r == Success(Some(changelog[IndexOf(changelog, EntryHeading(version)).value..]))
  {
    var heading := EntryHeading(version);
    var previous := PreviousVersion(VersionsIn(changelog), version);
    if previous.None? && !Contains(changelog, heading) then Success(None)
    else if !Contains(changelog, heading) then Success(None)
    else
      var start := IndexOf(changelog, heading).value;
      match previous
      case None => Success(Some(changelog[start..]))
      case Some(p) =>
        match IndexOf(changelog, EntryHeading(p))
        case None => Failure(ValueError)
        case Some(end) =>
          var entry := Slice(changelog, start, end);
          assert StartsWith(changelog[start..], entry);
          Success(Some(entry))
  }

  /** When the previous version's heading follows, the entry runs exactly up to it. */
  lemma ExtractEntryUpToPrevious(changelog: string, version: Version, p: Version)
    requires Contains(changelog, EntryHeading(version))
    requires PreviousVersion(VersionsIn(changelog), version) == Some(p)
    requires Contains(changelog, EntryHeading(p))
    requires IndexOf(changelog, EntryHeading(version)).value <= IndexOf(changelog, EntryHeading(p)).value
    ensures ExtractEntry(changelog, version).Success?
    ensures ExtractEntry(changelog, version).value.Some?
    ensures
      var start := IndexOf(changelog, EntryHeading(version)).value;
      var end := IndexOf(changelog, EntryHeading(p)).value;
      ExtractEntry(changelog, version).value.value + changelog[end..] == changelog[start..]
      && !Contains(ExtractEntry(changelog, version).value.value, EntryHeading(p))
  {
    var start := IndexOf(changelog, EntryHeading(version)).value;
    var end := IndexOf(changelog, EntryHeading(p)).value;
    var entry := changelog[start..end];
    assert ExtractEntry(changelog, version) == Success(Some(entry));
    var pat := EntryHeading(p);
    if Contains(entry, pat) {
      OccursInSlice(changelog, pat, start, end, IndexOf(entry, pat).value);
    }
  }

  lemma OccursInSlice(s: string, pat: string, start: nat, end: nat, j: nat)
    requires |pat| > 0 && start <= end <= |s| && OccursAt(s[start..end], pat, j)
    ensures OccursAt(s, pat, start + j) && start + j < end
  {
    var t := s[start..end];
    assert forall k :: j <= k < j + |pat| ==> t[k] == s[start + k];
    assert t[j..j + |pat|] == s[start + j..start + j + |pat|];
  }

  // ---------------------------------------------------------------------------
  // `entry_to_standalone`
  // ---------------------------------------------------------------------------

  /**
   * The heading the standalone entry opens with as written: the version
   * prefix followed by " Changes", so two spaces after the hashes.
   */
  const StandaloneHeadingAsWritten: string := "##  Changes\n<!-- Generated from the CHANGELOG file -->\n"

  /** The heading the standalone entry evidently should open with. */
  const StandaloneHeading: string := "## Changes\n<!-- Generated from the CHANGELOG file -->\n"

  /**
   * `entry_to_standalone` as written: the pattern puts a space after the
   * prefix, which already ends with a space, so it asks for two spaces
   * between the hashes and the version (and the replacement heading has
   * two spaces as well).
   */
  function EntryToStandalone(entry: string, version: Version): string {
    Replace(entry, VersionHeadingPrefix + " " + Render(version) + "\n", StandaloneHeadingAsWritten)
  }

  predicate NoDoubleSpace(s: string) {
    forall k :: 0 <= k < |s| - 1 ==> !(s[k] == ' ' && s[k + 1] == ' ')
  }

  /** As written, an entry without two spaces in a row, such as every entry the changelog writes, is returned unchanged. */
  lemma StandaloneAsWrittenUnchanged(entry: string, version: Version)
    requires NoDoubleSpace(entry)
    ensures EntryToStandalone(entry, version) == entry
  {
    var pat := VersionHeadingPrefix + " " + Render(version) + "\n";
    assert pat[2] == ' ' && pat[3] == ' ';
    ReplaceAbsent(entry, pat, StandaloneHeadingAsWritten);
  }

  /** The entry that `extract_entry` cuts for version 1.0, which keeps its version heading. */
  lemma StandaloneAsWrittenExample()
    ensures EntryToStandalone("## 1.0\n\n- Fixed a bug\n", Version(0, [1, 0])) == "## 1.0\n\n- Fixed a bug\n"
  {
    StandaloneAsWrittenUnchanged("## 1.0\n\n- Fixed a bug\n", Version(0, [1, 0]));
  }

  /** `entry_to_standalone` with the version heading the changelog actually writes. */
  function IntendedStandalone(entry: string, version: Version): string {
    Replace(entry, VersionHeadingPrefix + Render(version) + "\n", StandaloneHeading)
  }

  /** The corrected conversion swaps the version heading for the generic one and keeps the body. */
  lemma IntendedStandaloneReplacesHeading(version: Version, body: string)
    requires !Contains(body, VersionHeadingPrefix + Render(version) + "\n")
    ensures IntendedStandalone(VersionHeadingPrefix + Render(version) + "\n" + body, version) == StandaloneHeading + body
  {
    var pat := VersionHeadingPrefix + Render(version) + "\n";
    var s := pat + body;
    assert s[..|pat|] == pat && s[|pat|..] == body;
    ReplaceAbsent(body, pat, StandaloneHeading);
  }

  lemma RenderExample()
    ensures Render(Version(0, [1, 0])) == "1.0"
  {
    assert ReleaseStrings([1, 0]) == ["1", "0"];
    JoinCons("1", ["0"], '.');
  }

  /** A text without the first character of a pattern does not contain it. */
  lemma AbsentFirstChar(s: string, pat: string)
    requires |pat| > 0 && pat[0] !in s
    ensures !Contains(s, pat)
  {
  }

  /** On the entry of `StandaloneAsWrittenExample`, the corrected conversion drops the version heading. */
  lemma IntendedStandaloneExample()
    ensures IntendedStandalone("## 1.0\n" + "\n- Fixed a bug\n", Version(0, [1, 0])) == StandaloneHeading + "\n- Fixed a bug\n"
  {
    var v := Version(0, [1, 0]);
    var body := "\n- Fixed a bug\n";
    var pat := VersionHeadingPrefix + Render(v) + "\n";
    assert pat == "## 1.0\n" by {
      RenderExample();
    }
    assert !Contains(body, pat) by {
      AbsentFirstChar(body, pat);
    }
    IntendedStandaloneReplacesHeading(v, body);
  }
}
