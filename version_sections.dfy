/**
 * `VersionSection`: the part of a changelog under one version heading, built
 * from the pull requests of a release or read back from a parsed changelog.
 */
module VersionSections {
  import opened Results
  import opened Text
  import opened Versions
  import opened GitHub
  import Config
  import opened Markdown
  import Sections
  import opened EntrySections

  datatype VersionSection = VersionSection(level: nat, title: string, version: Version, children: seq<Block>)

  /** The heading block of a version section. */
  function Element(section: VersionSection): Block {
    NewHeading(section.title, section.level)
  }

  /** `VersionSection.new`: the title must parse as a version. */
  function New(title: string, level: nat, children: seq<Block>): (r: Result<VersionSection>)
    ensures r.Failure? <==> !IsVersionText(title)
    ensures r.Failure? ==> r.error == InvalidVersion(title)
    ensures r.Success? ==> Parse(title) == Some(r.value.version)
    ensures r.Success? ==> r.value.title == title && r.value.level == level && r.value.children == children
  {
    match Parse(title)
    case None => Failure(InvalidVersion(title))
    case Some(v) => Success(VersionSection(level, title, v, children))
  }

  /** A heading written for a version reads back as that version. */
  lemma NewOfRendered(v: Version, level: nat, children: seq<Block>)
    requires |v.release| > 0
    ensures New(Render(v), level, children) == Success(VersionSection(level, Render(v), v, children))
  {
    ParseRender(v);
  }

  // ---------------------------------------------------------------------------
  // Entry sections and entries
  // ---------------------------------------------------------------------------

  function ToEntrySections(groups: seq<Sections.Section>, level: nat): (r: seq<EntrySection>)
    ensures |r| == |groups|
    ensures forall k :: 0 <= k < |groups| ==> r[k] == EntrySection(level, groups[k].title, groups[k].children)
  {
    seq(|groups|, k requires 0 <= k < |groups| => EntrySection(level, groups[k].title, groups[k].children))
  }

  /** `VersionSection.sections`: the entry sections one heading level deeper. */
  method SectionsOf(section: VersionSection) returns (sections: seq<EntrySection>)
    ensures sections == ToEntrySections(Sections.Group(section.children, section.level + 1), section.level + 1)
  {
    var groups := Sections.FromElements(section.children, section.level + 1);
    sections := ToEntrySections(groups, section.level + 1);
  }

  /** The list items of every group, group after group. */
  function GroupItems(groups: seq<Sections.Section>): seq<string> {
    if groups == [] then []
    else GroupItems(groups[..|groups| - 1]) + ListItems(groups[|groups| - 1].children)
  }

  /** `VersionSection.all_entries`: the entries of every entry section, in order. */
  method AllEntries(section: VersionSection) returns (entries: seq<string>)
    ensures entries == GroupItems(Sections.Group(section.children, section.level + 1))
  {
    var sections := SectionsOf(section);
    ghost var groups := Sections.Group(section.children, section.level + 1);
    entries := [];
    var k := 0;
    while k < |sections|
      invariant 0 <= k <= |sections|
      invariant entries == GroupItems(groups[..k])
    {
      var more := Entries(sections[k]);
      assert groups[..k + 1][..k] == groups[..k];
      entries := entries + more;
      k := k + 1;
    }
    assert groups[..k] == groups;
  }

  /**
   * A run of blocks that opens with a titled heading of `level` and holds no
   * shallower heading: every block of it belongs to some section.
   */
  predicate SectionedRun(bs: seq<Block>, level: nat) {
    (bs == [] || Sections.Opens(bs[0], level)) && forall k :: 0 <= k < |bs| ==> !Sections.Closes(bs[k], level)
  }

  lemma GroupItemsSnoc(groups: seq<Sections.Section>, g: Sections.Section)
    ensures GroupItems(groups + [g]) == GroupItems(groups) + ListItems(g.children)
  {
    assert (groups + [g])[..|groups|] == groups;
  }

  /** The items a block contributes to `ListItems`. */
  function BlockItems(b: Block): seq<string> {
    if b.ListBlock? then b.items else []
  }

  lemma ListItemsSnoc(bs: seq<Block>, b: Block)
    ensures ListItems(bs + [b]) == ListItems(bs) + BlockItems(b)
  {
    assert (bs + [b])[..|bs|] == bs;
  }

  lemma LastSplit<T>(s: seq<T>)
    requires |s| > 0
    ensures s == s[..|s| - 1] + [s[|s| - 1]]
  {
  }

  /** While a section is open, every list's items reach the sections. */
  lemma StepItems(g: seq<Sections.Section>, b: Block, level: nat)
    requires |g| > 0
    ensures GroupItems(Sections.Step(g, true, b, level)) == GroupItems(g) + BlockItems(b)
  {
    if Sections.Opens(b, level) {
      GroupItemsSnoc(g, Sections.Section(b.title.value, []));
      assert ListItems([]) == [];
    } else if Sections.Kept(b, level) {
      StepItemsKept(g, b, level);
    } else {
      assert !b.ListBlock?;
    }
  }

  /** A kept block joins the last section, and so do its items. */
  lemma StepItemsKept(g: seq<Sections.Section>, b: Block, level: nat)
    requires |g| > 0 && !Sections.Opens(b, level) && Sections.Kept(b, level)
    ensures GroupItems(Sections.Step(g, true, b, level)) == GroupItems(g) + BlockItems(b)
  {
    var init := g[..|g| - 1];
    var last := g[|g| - 1];
    var last' := last.(children := last.children + [b]);
    assert Sections.Step(g, true, b, level) == init + [last'];
    GroupItemsSnoc(init, last');
    ListItemsSnoc(last.children, b);
    GroupItemsSnoc(init, last);
    LastSplit(g);
    var before := GroupItems(init);
    var kept := ListItems(last.children);
    assert GroupItems(g) == before + kept;
    assert GroupItems(init + [last']) == before + (kept + BlockItems(b));
    ConcatAssociative(before, kept, BlockItems(b));
  }

  /** In a sectioned run, the entries of the sections are all the list items of the run. */
  lemma {:induction false} AllEntriesComplete(bs: seq<Block>, level: nat)
    requires SectionedRun(bs, level)
    ensures GroupItems(Sections.Group(bs, level)) == ListItems(bs)
    ensures bs != [] ==> Sections.IsOpen(bs, level)
    decreases |bs|
  {
    if bs == [] {
      assert Sections.FindOpening(bs, level, 0) == None;
    } else {
      var init := bs[..|bs| - 1];
      var b := bs[|bs| - 1];
      assert init + [b] == bs;
      assert SectionedRun(init, level) by {
        assert forall k :: 0 <= k < |init| ==> init[k] == bs[k];
      }
      AllEntriesComplete(init, level);
      Sections.GroupSnoc(init, b, level, 0);
      ListItemsSnoc(init, b);
      var g := Sections.Group(init, level);
      if init == [] {
        assert Sections.Opens(b, level);
        assert g == [] by {
          assert Sections.FindOpening(init, level, 0) == None;
        }
        var started := Sections.Section(b.title.value, []);
        assert Sections.Group(bs, level) == [started];
        assert GroupItems([started]) == [] by {
          assert ListItems([]) == [];
          GroupItemsSnoc([], started);
        }
      } else {
        StepItems(g, b, level);
      }
    }
  }

  // ---------------------------------------------------------------------------
  // from_pull_requests
  // ---------------------------------------------------------------------------

  /** The section key that collects pull requests no configured key claims. */
  const Unknown: string := "__unknown__"

  /** A pull request carrying a `changelog-ignore-labels` label is left out. */
  predicate Ignored(config: Config.Config, pr: PullRequest) {
    pr.labels * config.changelogIgnoreLabels != {}
  }

  /** The first section key, in configuration order, among the labels. */
  function MatchIndex(table: Config.SectionTable, labels: set<string>): (r: Option<nat>)
    ensures r.Some? ==> r.value < |table| && table[r.value].0 in labels
    ensures r.Some? ==> forall j :: 0 <= j < r.value ==> table[j].0 !in labels
    ensures r.None? ==> forall j :: 0 <= j < |table| ==> table[j].0 !in labels
  {
    if table == [] then None
    else if table[0].0 in labels then Some(0)
    else
      match MatchIndex(table[1..], labels)
      case None => None
      case Some(k) => Some(k + 1)
  }

  /**
   * The section a pull request is filed under: the first configured key
   * among its labels, else the `__unknown__` section; none when ignored or
   * when there is no `__unknown__` section to fall back on.
   */
  function Destination(config: Config.Config, pr: PullRequest): (r: Option<nat>)
    ensures r.Some? ==> !Ignored(config, pr) && r.value < |config.changelogSections|
    ensures r.Some? ==>
      var (key, _) := config.changelogSections[r.value];
      (key in pr.labels && forall j :: 0 <= j < r.value ==> config.changelogSections[j].0 !in pr.labels)
      || (key == Unknown && forall j :: 0 <= j < |config.changelogSections| ==> config.changelogSections[j].0 !in pr.labels)
  {
    if Ignored(config, pr) then None
    else
      match MatchIndex(config.changelogSections, pr.labels)
      case Some(k) => Some(k)
      case None => Config.KeyIndex(config.changelogSections, Unknown)
  }

  /** A pull request that is not ignored, matches no key, and has no `__unknown__` section. */
  predicate Unplaced(config: Config.Config, pr: PullRequest) {
    && !Ignored(config, pr)
    && MatchIndex(config.changelogSections, pr.labels).None?
    && Config.KeyIndex(config.changelogSections, Unknown).None?
  }

  lemma DestinationNone(config: Config.Config, pr: PullRequest)
    ensures Destination(config, pr).None? <==> Ignored(config, pr) || Unplaced(config, pr)
  {
  }

  /** The pull requests filed under section `k`, in order. */
  function Bucket(config: Config.Config, prs: seq<PullRequest>, k: nat): seq<PullRequest> {
    if prs == [] then []
    else
      var pr := prs[|prs| - 1];
      Bucket(config, prs[..|prs| - 1], k) + (if Destination(config, pr) == Some(k) then [pr] else [])
  }

  /** A pull request is in the bucket of exactly the section it is filed under. */
  lemma {:induction false} BucketMembership(config: Config.Config, prs: seq<PullRequest>, k: nat, pr: PullRequest)
    ensures pr in Bucket(config, prs, k) <==> pr in prs && Destination(config, pr) == Some(k)
  {
    if prs != [] {
      var init := prs[..|prs| - 1];
      BucketMembership(config, init, k, pr);
      assert prs == init + [prs[|prs| - 1]];
    }
  }

  /** `set(pull_requests)`, keeping first occurrences in order. */
  function Dedup(prs: seq<PullRequest>): (r: seq<PullRequest>)
    ensures forall pr :: pr in r <==> pr in prs
    ensures forall i, j :: 0 <= i < j < |r| ==> r[i] != r[j]
  {
    if prs == [] then []
    else
      var r := Dedup(prs[..|prs| - 1]);
      assert prs == prs[..|prs| - 1] + [prs[|prs| - 1]];
      if prs[|prs| - 1] in r then r else r + [prs[|prs| - 1]]
  }

  predicate TitleSorted(prs: seq<PullRequest>) {
    forall i, j :: 0 <= i < j < |prs| ==> !StrLess(prs[j].title, prs[i].title)
  }

  /** Places `pr` after every pull request whose title is not greater. */
  function InsertByTitle(sorted: seq<PullRequest>, pr: PullRequest): (r: seq<PullRequest>)
    requires TitleSorted(sorted)
    ensures multiset(r) == multiset(sorted) + multiset{pr}
    ensures TitleSorted(r)
  {
    if sorted == [] then [pr]
    else
      var last := sorted[|sorted| - 1];
      var init := sorted[..|sorted| - 1];
      assert sorted == init + [last];
      if StrLess(pr.title, last.title) then
        var r := InsertByTitle(init, pr);
        InsertedBelow(init, pr, last, r);
        r + [last]
      else
        AppendSorted(sorted, pr);
        sorted + [pr]
  }

  lemma InsertedBelow(init: seq<PullRequest>, pr: PullRequest, last: PullRequest, r: seq<PullRequest>)
    requires TitleSorted(init + [last]) && TitleSorted(r)
    requires multiset(r) == multiset(init) + multiset{pr}
    requires StrLess(pr.title, last.title)
    ensures TitleSorted(r + [last])
  {
    forall i | 0 <= i < |r|
      ensures !StrLess(last.title, r[i].title)
    {
      assert r[i] in multiset(r);
      if r[i] != pr {
        assert r[i] in multiset(init);
        var k :| 0 <= k < |init| && init[k] == r[i];
        assert (init + [last])[k] == r[i] && (init + [last])[|init|] == last;
      } else {
        StrLessIrreflexive(last.title);
        if StrLess(last.title, pr.title) {
          StrLessTransitive(last.title, pr.title, last.title);
        }
      }
    }
  }

  lemma AppendSorted(sorted: seq<PullRequest>, pr: PullRequest)
    requires sorted != [] && TitleSorted(sorted) && !StrLess(pr.title, sorted[|sorted| - 1].title)
    ensures TitleSorted(sorted + [pr])
  {
    var last := sorted[|sorted| - 1];
    forall i | 0 <= i < |sorted|
      ensures !StrLess(pr.title, sorted[i].title)
    {
      if i < |sorted| - 1 && StrLess(pr.title, sorted[i].title) {
        StrLessTotal(sorted[i].title, last.title);
        if StrLess(sorted[i].title, last.title) {
          StrLessTransitive(pr.title, sorted[i].title, last.title);
        }
      }
    }
  }

  /** `sorted(pull_requests, key=lambda pr: pr.title)`. */
  function SortByTitle(prs: seq<PullRequest>): (r: seq<PullRequest>)
    ensures multiset(r) == multiset(prs)
    ensures TitleSorted(r)
  {
    if prs == [] then []
    else
      assert prs == prs[..|prs| - 1] + [prs[|prs| - 1]];
      InsertByTitle(SortByTitle(prs[..|prs| - 1]), prs[|prs| - 1])
  }

  /** The blocks of section `k` for a bucket: its heading, a blank line, its list, a blank line; nothing when empty. */
  function BucketSection(config: Config.Config, k: nat, bucket: seq<PullRequest>): seq<Block>
    requires k < |config.changelogSections|
  {
    if bucket == [] then []
    else
      [NewHeading(config.changelogSections[k].1, 3)]
      + [BlankLine] + ParseListLines(ChangeLines(SortByTitle(bucket))) + [BlankLine]
  }

  /** The blocks of section `k` for the pull requests. */
  function SectionBlocks(config: Config.Config, prs: seq<PullRequest>, k: nat): seq<Block>
    requires k < |config.changelogSections|
  {
    BucketSection(config, k, Bucket(config, prs, k))
  }

  /** The entry section built for a non-empty bucket gives that section's blocks. */
  lemma SectionBlocksOf(config: Config.Config, k: nat, bucket: seq<PullRequest>, entry: EntrySection)
    requires k < |config.changelogSections| && bucket != []
    requires Config.SectionTitle(config.changelogSections, config.changelogSections[k].0) == Some(entry.title)
    requires entry.level == 3
    requires entry.children == [BlankLine] + ParseListLines(ChangeLines(SortByTitle(bucket))) + [BlankLine]
    ensures [EntrySections.Element(entry)] + entry.children == BucketSection(config, k, bucket)
  {
    var title := config.changelogSections[k].1;
    assert entry.title == title by {
      Config.SectionTitleOf(config.changelogSections, k);
    }
    var list := ParseListLines(ChangeLines(SortByTitle(bucket)));
    assert BucketSection(config, k, bucket) == [NewHeading(title, 3)] + [BlankLine] + list + [BlankLine];
    assert EntrySections.Element(entry) == NewHeading(title, 3);
    BlocksAssociative(NewHeading(title, 3), list);
  }

  lemma BlocksAssociative(heading: Block, list: seq<Block>)
    ensures [heading] + ([BlankLine] + list + [BlankLine]) == [heading] + [BlankLine] + list + [BlankLine]
  {
  }

  /** The blocks of the first `n` sections, in configuration order. */
  function ChildrenUpTo(config: Config.Config, prs: seq<PullRequest>, n: nat): seq<Block>
    requires n <= |config.changelogSections|
  {
    if n == 0 then [] else ChildrenUpTo(config, prs, n - 1) + SectionBlocks(config, prs, n - 1)
  }

  /** The blocks of the first `n` buckets, in configuration order. */
  function Listed(config: Config.Config, buckets: seq<seq<PullRequest>>, n: nat): seq<Block>
    requires |buckets| == |config.changelogSections| && n <= |buckets|
  {
    if n == 0 then [] else Listed(config, buckets, n - 1) + BucketSection(config, n - 1, buckets[n - 1])
  }

  /** `buckets` holds the bucket of every section for `prs`. */
  predicate Filed(config: Config.Config, prs: seq<PullRequest>, buckets: seq<seq<PullRequest>>) {
    |buckets| == |config.changelogSections| && forall k :: 0 <= k < |buckets| ==> buckets[k] == Bucket(config, prs, k)
  }

  /** Filing one more pull request appends it to the bucket of its destination and to no other. */
  lemma FiledStep(config: Config.Config, prs: seq<PullRequest>, n: nat, buckets: seq<seq<PullRequest>>, after: seq<seq<PullRequest>>)
    requires n < |prs| && Filed(config, prs[..n], buckets)
    requires Destination(config, prs[n]).None? ==> after == buckets
    requires Destination(config, prs[n]).Some? ==>
      var d := Destination(config, prs[n]).value;
      d < |buckets| && after == buckets[d := buckets[d] + [prs[n]]]
    ensures Filed(config, prs[..n + 1], after)
  {
    assert prs[..n + 1][..n] == prs[..n];
    forall k | 0 <= k < |after|
      ensures after[k] == Bucket(config, prs[..n + 1], k)
    {
      assert Bucket(config, prs[..n + 1], k) ==
        Bucket(config, prs[..n], k) + (if Destination(config, prs[n]) == Some(k) then [prs[n]] else []);
    }
  }

  /**
   * The filing loop of `VersionSection.from_pull_requests`: the buckets of
   * every section, or KeyError for `__unknown__` at the first pull request no
   * section takes.
   */
  method FileBuckets(config: Config.Config, prs: seq<PullRequest>) returns (r: Result<seq<seq<PullRequest>>>)
    ensures r.Failure? <==> exists m :: 0 <= m < |prs| && Unplaced(config, prs[m])
    ensures r.Failure? ==> r.error == KeyError(Unknown)
    ensures r.Success? ==> Filed(config, prs, r.value)
  {
    var table := config.changelogSections;
    var buckets: seq<seq<PullRequest>> := seq(|table|, _ => []);
    var n := 0;
    assert Filed(config, prs[..0], buckets) by {
      assert prs[..0] == [];
    }
    while n < |prs|
      invariant 0 <= n <= |prs|
      invariant Filed(config, prs[..n], buckets)
      invariant forall m :: 0 <= m < n ==> !Unplaced(config, prs[m])
    {
      var pr := prs[n];
      var d: Option<nat> := None;
      if !Ignored(config, pr) {
        match MatchIndex(table, pr.labels) {
          case Some(k) =>
            d := Some(k);
          case None =>
            match Config.KeyIndex(table, Unknown) {
              case None =>
                return Failure(KeyError(Unknown));
              case Some(u) =>
                d := Some(u);
            }
        }
      }
      assert d == Destination(config, pr);
      ghost var before := buckets;
      if d.Some? {
        buckets := buckets[d.value := buckets[d.value] + [pr]];
      }
      FiledStep(config, prs, n, before, buckets);
      n := n + 1;
    }
    assert prs[..n] == prs;
    return Success(buckets);
  }

  /** Listing the buckets of the pull requests gives the blocks of their sections. */
  lemma {:induction false} ListedChildren(config: Config.Config, prs: seq<PullRequest>, buckets: seq<seq<PullRequest>>, n: nat)
    requires |buckets| == |config.changelogSections| && n <= |buckets|
    requires forall k :: 0 <= k < n ==> buckets[k] == Bucket(config, prs, k)
    ensures Listed(config, buckets, n) == ChildrenUpTo(config, prs, n)
  {
    if n > 0 {
      ListedChildren(config, prs, buckets, n - 1);
      ListedStep(config, prs, buckets, n);
    }
  }

  lemma ListedStep(config: Config.Config, prs: seq<PullRequest>, buckets: seq<seq<PullRequest>>, n: nat)
    requires |buckets| == |config.changelogSections| && 0 < n <= |buckets|
    requires buckets[n - 1] == Bucket(config, prs, n - 1)
    requires Listed(config, buckets, n - 1) == ChildrenUpTo(config, prs, n - 1)
    ensures Listed(config, buckets, n) == ChildrenUpTo(config, prs, n)
  {
  }

  /** One step of the listing loop: the entry section of a bucket as blocks, or nothing for an empty bucket. */
  method EntryBlocks(config: Config.Config, k: nat, bucket: seq<PullRequest>) returns (blocks: seq<Block>)
    requires k < |config.changelogSections|
    ensures blocks == BucketSection(config, k, bucket)
  {
    if bucket == [] {
      return [];
    }
    var table := config.changelogSections;
    var sorted := SortByTitle(bucket);
    var entry := EntrySections.FromPullRequests(config, table[k].0, sorted, 3);
    Config.SectionTitleOf(table, k);
    if entry.Failure? {
      assert false;
    }
    SectionBlocksOf(config, k, bucket, entry.value);
    blocks := [EntrySections.Element(entry.value)] + entry.value.children;
  }

  /** The listing loop of `VersionSection.from_pull_requests`: the blocks of every non-empty bucket, in table order. */
  method ListSections(config: Config.Config, buckets: seq<seq<PullRequest>>) returns (children: seq<Block>)
    requires |buckets| == |config.changelogSections|
    ensures children == Listed(config, buckets, |buckets|)
  {
    children := [];
    var k := 0;
    while k < |buckets|
      invariant 0 <= k <= |buckets|
      invariant children == Listed(config, buckets, k)
    {
      var blocks := EntryBlocks(config, k, buckets[k]);
      children := children + blocks;
      k := k + 1;
    }
  }

  /**
   * `VersionSection.from_pull_requests`: files each distinct pull request
   * under its section and lists every non-empty section, in configuration
   * order, with its pull requests sorted by title. A pull request that no
   * section takes raises KeyError for `__unknown__`.
   */
  method FromPullRequests(config: Config.Config, version: Version, pullRequests: seq<PullRequest>, level: nat)
    returns (r: Result<VersionSection>)
    ensures r.Failure? <==> exists pr :: pr in pullRequests && Unplaced(config, pr)
    ensures r.Failure? ==> r.error == KeyError(Unknown)
    ensures r.Success? ==>
      r.value == VersionSection(level, Render(version), version,
        ChildrenUpTo(config, Dedup(pullRequests), |config.changelogSections|))
  {
    var prs := Dedup(pullRequests);
    var buckets := FileBuckets(config, prs);
    if buckets.Failure? {
      var m :| 0 <= m < |prs| && Unplaced(config, prs[m]);
      assert prs[m] in pullRequests;
      return Failure(buckets.error);
    }
    forall pr | pr in pullRequests
      ensures !Unplaced(config, pr)
    {
      var m :| 0 <= m < |prs| && prs[m] == pr;
    }
    var children := ListSections(config, buckets.value);
    ListedChildren(config, prs, buckets.value, |buckets.value|);
    r := Success(VersionSection(level, Render(version), version, children));
  }

  /** `VersionSection.as_document`: a new document with the heading, a blank line and the children. */
  method AsDocument(section: VersionSection) returns (document: Document)
    ensures fresh(document)
    ensures document.children == [Element(section), BlankLine] + section.children
  {
    document := new Document.Empty();
    document.AddChild(Element(section));
    document.AddChild(BlankLine);
    document.AddChildren(section.children);
  }
}
