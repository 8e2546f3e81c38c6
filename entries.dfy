/**
 * `EntrySection`: a titled group of change entries inside a version section,
 * built from pull requests or read back from parsed blocks.
 */
module EntrySections {
  import opened Results
  import opened Markdown
  import opened GitHub
  import Config

  datatype EntrySection = EntrySection(level: nat, title: string, children: seq<Block>)

  /** The heading block of an entry section. */
  function Element(section: EntrySection): Block {
    NewHeading(section.title, section.level)
  }

  /** The contents of the items of every list among `bs`, in order. */
  function ListItems(bs: seq<Block>): seq<string> {
    if bs == [] then []
    else ListItems(bs[..|bs| - 1]) + (if bs[|bs| - 1].ListBlock? then bs[|bs| - 1].items else [])
  }

  lemma {:induction false} ListItemsConcat(a: seq<Block>, b: seq<Block>)
    ensures ListItems(a + b) == ListItems(a) + ListItems(b)
    decreases |b|
  {
    if b == [] {
      assert a + b == a;
    } else {
      var init := b[..|b| - 1];
      assert (a + b)[..|a + b| - 1] == a + init;
      ListItemsConcat(a, init);
    }
  }

  /** `EntrySection.entries`: the items of the section's lists. */
  method Entries(section: EntrySection) returns (entries: seq<string>)
    ensures entries == ListItems(section.children)
  {
    entries := [];
    var k := 0;
    while k < |section.children|
      invariant 0 <= k <= |section.children|
      invariant entries == ListItems(section.children[..k])
    {
      var element := section.children[k];
      assert section.children[..k + 1][..k] == section.children[..k];
      if element.ListBlock? {
        var n := 0;
        while n < |element.items|
          invariant 0 <= n <= |element.items|
          invariant entries == ListItems(section.children[..k]) + element.items[..n]
        {
          entries := entries + [element.items[n]];
          n := n + 1;
          assert element.items[..n] == element.items[..n - 1] + [element.items[n - 1]];
        }
        assert element.items[..n] == element.items;
      }
      k := k + 1;
    }
    assert section.children[..k] == section.children;
  }

  /** The change lines of the default template, one per pull request. */
  function ChangeLines(prs: seq<PullRequest>): (lines: seq<string>)
    ensures |lines| == |prs|
    ensures forall k :: 0 <= k < |prs| ==> lines[k] == ChangeLine(prs[k])
  {
    seq(|prs|, k requires 0 <= k < |prs| => ChangeLine(prs[k]))
  }

  function ChangeItems(prs: seq<PullRequest>): (items: seq<string>)
    ensures |items| == |prs|
    ensures forall k :: 0 <= k < |prs| ==> items[k] == ChangeItem(prs[k])
  {
    seq(|prs|, k requires 0 <= k < |prs| => ChangeItem(prs[k]))
  }

  /**
   * The blocks that `"\n".join(lines)` parses to when every line is a list
   * line `- item`: one list holding the items, or nothing for no lines.
   */
  function ParseListLines(lines: seq<string>): seq<Block>
    requires forall k :: 0 <= k < |lines| ==> |lines[k]| >= 2 && lines[k][..2] == "- "
  {
    if lines == [] then [] else [ListBlock(seq(|lines|, k requires 0 <= k < |lines| => lines[k][2..]))]
  }

  /** The list parsed from the change lines holds the change items. */
  lemma ParseChangeLines(prs: seq<PullRequest>)
    ensures forall k :: 0 <= k < |prs| ==> |ChangeLines(prs)[k]| >= 2 && ChangeLines(prs)[k][..2] == "- "
    ensures ParseListLines(ChangeLines(prs)) == if prs == [] then [] else [ListBlock(ChangeItems(prs))]
  {
    var lines := ChangeLines(prs);
    var items := seq(|lines|, k requires 0 <= k < |lines| => lines[k][2..]);
    assert items == ChangeItems(prs);
  }

  /**
   * `EntrySection.from_pull_requests`: a heading with the configured title of
   * `key` and one list line per pull request between blank lines. A key with
   * no configured title gives `None` to `new_heading`, which raises TypeError.
   */
  method FromPullRequests(config: Config.Config, key: string, prs: seq<PullRequest>, level: nat)
    returns (r: Result<EntrySection>)
    ensures r.Failure? <==> Config.SectionTitle(config.changelogSections, key).None?
    ensures r.Failure? ==> r.error == TypeError
    ensures r.Success? ==> r.value.level == level
    ensures r.Success? ==> Config.SectionTitle(config.changelogSections, key) == Some(r.value.title)
    ensures r.Success? ==> r.value.children == [BlankLine] + ParseListLines(ChangeLines(prs)) + [BlankLine]
  {
    var title := Config.SectionTitle(config.changelogSections, key);
    if title.None? {
      return Failure(TypeError);
    }
    var lines := [];
    var n := 0;
    while n < |prs|
      invariant 0 <= n <= |prs|
      invariant lines == ChangeLines(prs[..n])
    {
      lines := lines + [ChangeLine(prs[n])];
      n := n + 1;
    }
    assert prs[..n] == prs;
    ParseChangeLines(prs);
    r := Success(EntrySection(level, title.value, [BlankLine] + ParseListLines(lines) + [BlankLine]));
  }

  /** A section built from pull requests lists exactly their change items, in order. */
  lemma EntriesOfPullRequests(level: nat, title: string, prs: seq<PullRequest>)
    ensures ListItems([BlankLine] + ParseListLines(ChangeLines(prs)) + [BlankLine]) == ChangeItems(prs)
  {
    ParseChangeLines(prs);
    var parsed := ParseListLines(ChangeLines(prs));
    ListItemsConcat([BlankLine], parsed);
    ListItemsConcat([BlankLine] + parsed, [BlankLine]);
    assert ListItems([BlankLine]) == [] by {
      assert [BlankLine][..0] == [];
    }
    if prs != [] {
      assert ListItems(parsed) == ChangeItems(prs) by {
        assert parsed[..0] == [];
      }
    }
  }
}
