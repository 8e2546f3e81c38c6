/**
 * The decisions `rooster release` and `rooster changelog` take between their
 * I/O steps: which changelog sections to build, which kind of version bump
 * the pull requests call for, the version to release, and which pull
 * requests an existing changelog entry already mentions.
 */
module Cli {
  import opened Results
  import opened Text
  import opened Versions
  import opened GitHub
  import Config
  import opened Markdown
  import opened VersionSections
  import opened Changelogs

  // ---------------------------------------------------------------------------
  // The sections to build
  // ---------------------------------------------------------------------------

  /**
   * The configured section keys, or the `--only-section` names when there are
   * any, less the `--without-section` names.
   */
  function SelectedSections(table: Config.SectionTable, only: seq<string>, without: seq<string>): (sections: set<string>)
    ensures only == [] ==> forall s :: s in sections <==> (exists k :: 0 <= k < |table| && table[k].0 == s) && s !in without
    ensures only != [] ==> forall s :: s in sections <==> s in only && s !in without
  {
    var keys := Config.SectionKeys(table);
    var base := if only == [] then set k | 0 <= k < |keys| :: keys[k] else set k | 0 <= k < |only| :: only[k];
    if without != [] then base - set k | 0 <= k < |without| :: without[k] else base
  }

  // ---------------------------------------------------------------------------
  // The bump
  // ---------------------------------------------------------------------------

  /** Every label some pull request carries. */
  predicate Carried(prs: seq<PullRequest>, name: string) {
    exists k :: 0 <= k < |prs| && name in prs[k].labels
  }

  /** The union of the labels of the pull requests. */
  method CollectLabels(prs: seq<PullRequest>) returns (labels: set<string>)
    ensures forall l :: l in labels <==> Carried(prs, l)
  {
    labels := {};
    var i := 0;
    while i < |prs|
      invariant 0 <= i <= |prs|
      invariant forall l :: l in labels <==> Carried(prs[..i], l)
    {
      forall l
        ensures l in labels + prs[i].labels <==> Carried(prs[..i + 1], l)
      {
        if Carried(prs[..i + 1], l) && l !in prs[i].labels {
          var k :| 0 <= k < i + 1 && l in prs[..i + 1][k].labels;
          assert prs[..i][k] == prs[k];
        }
        if l in labels {
          var k :| 0 <= k < i && l in prs[..i][k].labels;
          assert prs[..i + 1][k] == prs[k];
        }
        if l in prs[i].labels {
          assert prs[..i + 1][i] == prs[i];
        }
      }
      labels := labels + prs[i].labels;
      i := i + 1;
    }
    assert prs[..i] == prs;
  }

  /** Whether one of the configured labels is among the carried ones, looking through them one by one. */
  method AnyLabel(configured: set<string>, labels: set<string>) returns (found: bool)
    ensures found <==> configured * labels != {}
  {
    found := false;
    var rest := configured;
    while rest != {}
      invariant rest <= configured
      invariant (configured - rest) * labels == {}
      decreases |rest|
    {
      var name :| name in rest;
      if name in labels {
        assert name in configured * labels;
        return true;
      }
      rest := rest - {name};
    }
    assert configured - rest == configured;
  }

  /**
   * The bump `rooster release` uses: the `--bump` argument when given;
   * otherwise minor when a configured minor label is carried (even alongside a
   * major one, since the minor check runs second and overwrites), major when
   * only a major label is, and patch when neither is.
   */
  method DetectBump(explicit: Option<BumpType>, config: Config.Config, labels: set<string>) returns (bump: BumpType)
    ensures explicit.Some? ==> bump == explicit.value
    ensures explicit.None? && config.minorLabels * labels != {} ==> bump == Minor
    ensures explicit.None? && config.minorLabels * labels == {} && config.majorLabels * labels != {} ==> bump == Major
    ensures explicit.None? && config.minorLabels * labels == {} && config.majorLabels * labels == {} ==> bump == Patch
  {
    if explicit.Some? {
      return explicit.value;
    }
    bump := Patch;
    var major := AnyLabel(config.majorLabels, labels);
    if major {
      bump := Major;
    }
    var minor := AnyLabel(config.minorLabels, labels);
    if minor {
      bump := Minor;
    }
  }

  /** With the default labels, a breaking change that is also a feature gets a minor bump. */
  method BreakingFeatureIsMinor() returns (bump: BumpType)
    ensures bump == Minor
  {
    var pr := PullRequest("Rework the API", 1, {"breaking", "feature"}, "author", "project", "owner");
    var labels := CollectLabels([pr]);
    assert "breaking" in labels by {
      assert [pr][0] == pr;
    }
    assert "feature" in labels && "feature" in Config.Default.minorLabels * labels by {
      assert [pr][0] == pr;
    }
    bump := DetectBump(None, Config.Default, labels);
  }

  // ---------------------------------------------------------------------------
  // The new version
  // ---------------------------------------------------------------------------

  const Zero: Version := Version(0, [0, 0, 0])

  /**
   * The version `rooster release` writes: the bump of the latest tag, or of
   * 0.0.0 when there is none. A successful bump is newer than every tag.
   */
  method NewVersion(versions: seq<Version>, bump: BumpType) returns (r: Result<Version>)
    ensures versions == [] && bump == Patch ==> r == Success(Version(0, [0, 0, 1]))
    ensures versions == [] && bump == Minor ==> r == Success(Version(0, [0, 1, 0]))
    ensures versions == [] && bump == Major ==> r == Success(Version(0, [1, 0, 0]))
    ensures versions == [] ==> r.Success?
    ensures versions != [] ==>
      var last := versions[LatestIndex(versions)];
      && (r.Failure? <==> |last.release| < 3)
      && (r.Failure? ==> r.error == IndexError)
      && (r.Success? ==> r.value.epoch == last.epoch && |r.value.release| == |last.release|
                         && BumpedRelease(last.release, r.value.release, bump))
    ensures r.Success? ==> forall v :: v in versions ==> Less(v, r.value)
  {
    var last := LatestVersion(versions);
    var base := if last.Some? then last.value else Zero;
    r := BumpVersion(base, bump);
    if r.Success? && versions == [] {
      var release := r.value.release;
      assert release == [release[0], release[1], release[2]];
    }
    if r.Success? {
      forall v | v in versions
        ensures Less(v, r.value)
      {
        LessTotal(v, base);
        if Less(v, base) {
          LessTransitive(v, base, r.value);
        }
      }
    }
  }

  // ---------------------------------------------------------------------------
  // Skipping pull requests already in the changelog
  // ---------------------------------------------------------------------------

  /** Whether some entry mentions the pull request's `[#N]` reference. */
  predicate Mentioned(entries: seq<string>, pr: PullRequest) {
    exists k :: 0 <= k < |entries| && Contains(entries[k], Marker(pr.number))
  }

  /** The pull requests no entry mentions, in their original order. */
  function Unmentioned(prs: seq<PullRequest>, entries: seq<string>): (kept: seq<PullRequest>)
    ensures |kept| <= |prs|
    ensures forall k :: 0 <= k < |kept| ==> kept[k] in prs && !Mentioned(entries, kept[k])
  {
    if prs == [] then []
    else
      var init := Unmentioned(prs[..|prs| - 1], entries);
      assert forall k :: 0 <= k < |init| ==> init[k] in prs;
      init + if Mentioned(entries, prs[|prs| - 1]) then [] else [prs[|prs| - 1]]
  }

  /** No unmentioned pull request is dropped. */
  lemma {:induction false} UnmentionedComplete(prs: seq<PullRequest>, entries: seq<string>, pr: PullRequest)
    requires pr in prs && !Mentioned(entries, pr)
    ensures pr in Unmentioned(prs, entries)
  {
    var n := |prs| - 1;
    if pr != prs[n] {
      var k :| 0 <= k < |prs| && prs[k] == pr;
      assert prs[..n][k] == pr;
      UnmentionedComplete(prs[..n], entries, pr);
    }
  }

  /** Filtering a concatenation filters each part. */
  lemma {:induction false} UnmentionedConcat(a: seq<PullRequest>, b: seq<PullRequest>, entries: seq<string>)
    ensures Unmentioned(a + b, entries) == Unmentioned(a, entries) + Unmentioned(b, entries)
    decreases |b|
  {
    if b == [] {
      assert a + b == a;
    } else {
      var n := |b| - 1;
      UnmentionedConcat(a, b[..n], entries);
      assert (a + b)[..|a + b| - 1] == a + b[..n];
      assert (a + b)[|a + b| - 1] == b[n];
    }
  }

  /** Whether some entry mentions the pull request, looking through the entries one by one. */
  method IsMentioned(entries: seq<string>, pr: PullRequest) returns (mentioned: bool)
    ensures mentioned <==> Mentioned(entries, pr)
  {
    mentioned := false;
    var k := 0;
    while k < |entries|
      invariant 0 <= k <= |entries|
      invariant mentioned <==> exists j :: 0 <= j < k && Contains(entries[j], Marker(pr.number))
    {
      if Contains(entries[k], Marker(pr.number)) {
        mentioned := true;
      }
      k := k + 1;
    }
  }

  /** Filtering one more pull request appends it exactly when no entry mentions it. */
  lemma UnmentionedStep(prs: seq<PullRequest>, entries: seq<string>, i: nat)
    requires i < |prs|
    ensures Unmentioned(prs[..i + 1], entries)
         == Unmentioned(prs[..i], entries) + if Mentioned(entries, prs[i]) then [] else [prs[i]]
  {
    assert prs[..i + 1][..i] == prs[..i];
  }

  /** The filter of the pull requests against the entries of the existing section, and how many it drops. */
  method FilterMentioned(prs: seq<PullRequest>, entries: seq<string>) returns (kept: seq<PullRequest>, skipped: nat)
    ensures kept == Unmentioned(prs, entries)
    ensures skipped == |prs| - |kept|
  {
    kept := [];
    var i := 0;
    while i < |prs|
      invariant 0 <= i <= |prs|
      invariant kept == Unmentioned(prs[..i], entries)
    {
      UnmentionedStep(prs, entries, i);
      var mentioned := IsMentioned(entries, prs[i]);
      if !mentioned {
        kept := kept + [prs[i]];
      }
      i := i + 1;
    }
    assert prs[..i] == prs;
    skipped := |prs| - |kept|;
  }

  /**
   * The `--skip-existing` step of `rooster changelog`: when the changelog has a
   * section for the version, drop the pull requests one of its entries
   * mentions; otherwise keep them all.
   */
  method SkipExisting(log: Document, version: Version, prs: seq<PullRequest>)
    returns (r: Result<(seq<PullRequest>, nat)>)
    ensures VersionsOf(Sections.Group(log.children, 2), 2).Failure? ==> r.Failure?
    ensures r.Success? ==> r.value.1 == |prs| - |r.value.0|
    ensures r.Success? ==>
      var section := SectionFor(VersionsOf(Sections.Group(log.children, 2), 2).value, version);
      r.value.0 == if section.None? then prs
                   else Unmentioned(prs, GroupItems(Sections.Group(section.value.children, section.value.level + 1)))
  {
    var existing :- GetVersionSection(log, version);
    if existing.None? {
      return Success((prs, 0));
    }
    var entries := AllEntries(existing.value);
    var kept, skipped := FilterMentioned(prs, entries);
    return Success((kept, skipped));
  }
}
