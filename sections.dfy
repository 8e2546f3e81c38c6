/**
 * `Section.from_elements`: splitting a run of top-level blocks into the
 * sections opened by headings of one level.
 */
module Sections {
  import opened Results
  import opened Markdown

  /** A section: the title of its opening heading and the blocks it collected. */
  datatype Section = Section(title: string, children: seq<Block>)

  /** A heading of the section level with a title opens a section. */
  predicate Opens(b: Block, level: nat) {
    b.Heading? && b.level == level && b.title.Some?
  }

  /** A shallower heading ends the current section without opening one. */
  predicate Closes(b: Block, level: nat) {
    b.Heading? && b.level < level
  }

  /** Where the current section ends. */
  predicate Boundary(b: Block, level: nat) {
    Opens(b, level) || Closes(b, level)
  }

  /**
   * A block an open section collects: deeper headings and every non-heading
   * block except blank lines.
   */
  predicate Kept(b: Block, level: nat) {
    if b.Heading? then b.level > level else !b.BlankLine?
  }

  /** The kept blocks among `bs[lo..hi]`, in order. */
  function KeptBetween(bs: seq<Block>, level: nat, lo: nat, hi: nat): (r: seq<Block>)
    requires hi <= |bs|
    ensures forall k :: 0 <= k < |r| ==> Kept(r[k], level)
    decreases hi
  {
    if hi <= lo then [] else KeptBetween(bs, level, lo, hi - 1) + (if Kept(bs[hi - 1], level) then [bs[hi - 1]] else [])
  }

  /** The first titled heading of the level at or after `from`. */
  function FindOpening(bs: seq<Block>, level: nat, from: nat): (r: Option<nat>)
    requires from <= |bs|
    ensures r.Some? ==> from <= r.value < |bs| && Opens(bs[r.value], level)
    ensures r.Some? ==> forall k :: from <= k < r.value ==> !Opens(bs[k], level)
    ensures r.None? ==> forall k :: from <= k < |bs| ==> !Opens(bs[k], level)
    decreases |bs| - from
  {
    if from == |bs| then None
    else if Opens(bs[from], level) then Some(from)
    else FindOpening(bs, level, from + 1)
  }

  /** The first boundary at or after `i`, or the end. */
  function NextBoundary(bs: seq<Block>, level: nat, i: nat): (j: nat)
    requires i <= |bs|
    ensures i <= j <= |bs|
    ensures j < |bs| ==> Boundary(bs[j], level)
    ensures forall k :: i <= k < j ==> !Boundary(bs[k], level)
    decreases |bs| - i
  {
    if i == |bs| || Boundary(bs[i], level) then i else NextBoundary(bs, level, i + 1)
  }

  /**
   * The sections of `bs[from..]`: one per titled heading of the level, in
   * order, each holding the kept blocks between its heading and the next
   * boundary.
   */
  function GroupFrom(bs: seq<Block>, level: nat, from: nat): seq<Section>
    requires from <= |bs|
    decreases |bs| - from
  {
    match FindOpening(bs, level, from)
    case None => []
    case Some(i) =>
      var j := NextBoundary(bs, level, i + 1);
      [Section(bs[i].title.value, KeptBetween(bs, level, i + 1, j))] + GroupFrom(bs, level, j)
  }

  /** Whether the last section of `bs[from..]` still collects blocks at the end. */
  predicate IsOpenFrom(bs: seq<Block>, level: nat, from: nat)
    requires from <= |bs|
    decreases |bs| - from
  {
    match FindOpening(bs, level, from)
    case None => false
    case Some(i) =>
      var j := NextBoundary(bs, level, i + 1);
      j == |bs| || IsOpenFrom(bs, level, j)
  }

  function Group(bs: seq<Block>, level: nat): seq<Section> {
    GroupFrom(bs, level, 0)
  }

  predicate IsOpen(bs: seq<Block>, level: nat) {
    IsOpenFrom(bs, level, 0)
  }

  /**
   * One block of `from_elements`: a titled heading of the level appends a new
   * section, a kept block joins the open section, anything else leaves the
   * sections as they are.
   */
  function Step(sections: seq<Section>, open: bool, b: Block, level: nat): seq<Section>
    requires open ==> |sections| > 0
  {
    if Opens(b, level) then sections + [Section(b.title.value, [])]
    else if open && Kept(b, level) then
      var last := sections[|sections| - 1];
      sections[..|sections| - 1] + [last.(children := last.children + [b])]
    else sections
  }

  lemma {:induction false} KeptBetweenSnoc(bs: seq<Block>, b: Block, level: nat, lo: nat, hi: nat)
    requires hi <= |bs|
    ensures KeptBetween(bs + [b], level, lo, hi) == KeptBetween(bs, level, lo, hi)
    decreases hi
  {
    if hi > lo {
      KeptBetweenSnoc(bs, b, level, lo, hi - 1);
      assert (bs + [b])[hi - 1] == bs[hi - 1];
    }
  }

  lemma {:induction false} FindOpeningSnoc(bs: seq<Block>, b: Block, level: nat, from: nat)
    requires from <= |bs|
    ensures FindOpening(bs, level, from).Some? ==> FindOpening(bs + [b], level, from) == FindOpening(bs, level, from)
    ensures FindOpening(bs, level, from).None? ==>
      FindOpening(bs + [b], level, from) == if Opens(b, level) then Some(|bs|) else None
    decreases |bs| - from
  {
    var s := bs + [b];
    if from < |bs| {
      assert s[from] == bs[from];
      if !Opens(bs[from], level) {
        FindOpeningSnoc(bs, b, level, from + 1);
      }
    } else {
      assert s[from] == b;
      assert FindOpening(s, level, from + 1) == None;
    }
  }

  lemma {:induction false} NextBoundarySnoc(bs: seq<Block>, b: Block, level: nat, i: nat)
    requires i <= |bs|
    ensures NextBoundary(bs, level, i) < |bs| ==> NextBoundary(bs + [b], level, i) == NextBoundary(bs, level, i)
    ensures NextBoundary(bs, level, i) == |bs| ==>
      NextBoundary(bs + [b], level, i) == (if Boundary(b, level) then |bs| else |bs| + 1)
    decreases |bs| - i
  {
    var s := bs + [b];
    if i < |bs| {
      assert s[i] == bs[i];
      if !Boundary(bs[i], level) {
        NextBoundarySnoc(bs, b, level, i + 1);
      }
    } else {
      assert s[i] == b;
    }
  }

  /** Appending a block takes the step `from_elements` takes for it. */
  lemma {:induction false} GroupSnoc(bs: seq<Block>, b: Block, level: nat, from: nat)
    requires from <= |bs|
    ensures IsOpenFrom(bs, level, from) ==> |GroupFrom(bs, level, from)| > 0
    ensures IsOpenFrom(bs + [b], level, from) ==
      (Opens(b, level) || (IsOpenFrom(bs, level, from) && !Closes(b, level)))
    ensures GroupFrom(bs + [b], level, from) ==
      Step(GroupFrom(bs, level, from), IsOpenFrom(bs, level, from), b, level)
    decreases |bs| - from, 1
  {
    FindOpeningSnoc(bs, b, level, from);
    match FindOpening(bs, level, from)
    case None =>
      GroupSnocNone(bs, b, level, from);
    case Some(i) =>
      NextBoundarySnoc(bs, b, level, i + 1);
      if NextBoundary(bs, level, i + 1) < |bs| {
        GroupSnocLater(bs, b, level, from, i);
      } else {
        GroupSnocOpen(bs, b, level, from, i);
      }
  }

  /** The step when `bs[from..]` opens no section. */
  lemma GroupSnocNone(bs: seq<Block>, b: Block, level: nat, from: nat)
    requires from <= |bs| && FindOpening(bs, level, from) == None
    requires FindOpening(bs + [b], level, from) == if Opens(b, level) then Some(|bs|) else None
    ensures !IsOpenFrom(bs, level, from) && GroupFrom(bs, level, from) == []
    ensures IsOpenFrom(bs + [b], level, from) == Opens(b, level)
    ensures GroupFrom(bs + [b], level, from) == Step([], false, b, level)
  {
    var s := bs + [b];
    if Opens(b, level) {
      assert NextBoundary(s, level, |bs| + 1) == |s|;
      assert FindOpening(s, level, |s|) == None;
      assert GroupFrom(s, level, from) == [Section(b.title.value, [])];
    }
  }

  /** The step when the first section of `bs[from..]` is closed before its end. */
  lemma {:induction false} GroupSnocLater(bs: seq<Block>, b: Block, level: nat, from: nat, i: nat)
    requires from <= |bs| && FindOpening(bs, level, from) == Some(i)
    requires NextBoundary(bs, level, i + 1) < |bs|
    requires FindOpening(bs + [b], level, from) == Some(i)
    requires NextBoundary(bs + [b], level, i + 1) == NextBoundary(bs, level, i + 1)
    ensures IsOpenFrom(bs, level, from) ==> |GroupFrom(bs, level, from)| > 0
    ensures IsOpenFrom(bs + [b], level, from) ==
      (Opens(b, level) || (IsOpenFrom(bs, level, from) && !Closes(b, level)))
    ensures GroupFrom(bs + [b], level, from) ==
      Step(GroupFrom(bs, level, from), IsOpenFrom(bs, level, from), b, level)
    decreases |bs| - from, 0
  {
    var s := bs + [b];
    var j := NextBoundary(bs, level, i + 1);
    var g := GroupFrom(bs, level, j);
    var open := IsOpenFrom(bs, level, j);
    var head := Section(bs[i].title.value, KeptBetween(bs, level, i + 1, j));
    assert GroupFrom(bs, level, from) == [head] + g && IsOpenFrom(bs, level, from) == open by {
      GroupFromAt(bs, level, from, i);
    }
    assert GroupFrom(s, level, from) == [head] + GroupFrom(s, level, j)
        && IsOpenFrom(s, level, from) == IsOpenFrom(s, level, j) by {
      assert s[i] == bs[i];
      KeptBetweenSnoc(bs, b, level, i + 1, j);
      GroupFromAt(s, level, from, i);
    }
    assert GroupFrom(s, level, j) == Step(g, open, b, level)
        && IsOpenFrom(s, level, j) == (Opens(b, level) || (open && !Closes(b, level)))
        && (open ==> |g| > 0) by {
      GroupSnoc(bs, b, level, j);
    }
    StepCons(head, g, open, b, level);
  }

  /** One unfolding of the grouping at a known opening heading. */
  lemma GroupFromAt(bs: seq<Block>, level: nat, from: nat, i: nat)
    requires from <= |bs| && FindOpening(bs, level, from) == Some(i)
    ensures GroupFrom(bs, level, from) ==
      [Section(bs[i].title.value, KeptBetween(bs, level, i + 1, NextBoundary(bs, level, i + 1)))]
      + GroupFrom(bs, level, NextBoundary(bs, level, i + 1))
    ensures IsOpenFrom(bs, level, from) ==
      (NextBoundary(bs, level, i + 1) == |bs| || IsOpenFrom(bs, level, NextBoundary(bs, level, i + 1)))
  {
  }

  /** A step never touches a section before the last one. */
  lemma StepCons(head: Section, g: seq<Section>, open: bool, b: Block, level: nat)
    requires open ==> |g| > 0
    ensures [head] + Step(g, open, b, level) == Step([head] + g, open, b, level)
  {
    if Opens(b, level) {
      assert [head] + (g + [Section(b.title.value, [])]) == ([head] + g) + [Section(b.title.value, [])];
    } else if open && Kept(b, level) {
      var last := g[|g| - 1];
      var last' := last.(children := last.children + [b]);
      assert ([head] + g)[..|g|] == [head] + g[..|g| - 1];
      assert ([head] + g)[|g|] == last;
      assert [head] + (g[..|g| - 1] + [last']) == ([head] + g)[..|g|] + [last'];
    }
  }

  /** The step at the end of an open section. */
  lemma GroupSnocOpen(bs: seq<Block>, b: Block, level: nat, from: nat, i: nat)
    requires from <= |bs| && FindOpening(bs, level, from) == Some(i)
    requires NextBoundary(bs, level, i + 1) == |bs|
    requires FindOpening(bs + [b], level, from) == Some(i)
    requires NextBoundary(bs + [b], level, i + 1) == if Boundary(b, level) then |bs| else |bs| + 1
    ensures IsOpenFrom(bs, level, from)
    ensures GroupFrom(bs, level, from) == [Section(bs[i].title.value, KeptBetween(bs, level, i + 1, |bs|))]
    ensures IsOpenFrom(bs + [b], level, from) == (Opens(b, level) || !Closes(b, level))
    ensures GroupFrom(bs + [b], level, from) == Step(GroupFrom(bs, level, from), true, b, level)
  {
    var s := bs + [b];
    var kept := KeptBetween(bs, level, i + 1, |bs|);
    var title := bs[i].title.value;
    var j := NextBoundary(s, level, i + 1);
    assert GroupFrom(bs, level, from) == [Section(title, kept)] && IsOpenFrom(bs, level, from) by {
      assert FindOpening(bs, level, |bs|) == None;
      GroupFromAt(bs, level, from, i);
    }
    assert GroupFrom(s, level, from) == [Section(title, KeptBetween(s, level, i + 1, j))] + GroupFrom(s, level, j)
        && IsOpenFrom(s, level, from) == (j == |s| || IsOpenFrom(s, level, j)) by {
      assert s[i] == bs[i];
      GroupFromAt(s, level, from, i);
    }
    if Boundary(b, level) {
      GroupSnocClosing(bs, b, level, i, title);
    } else {
      GroupSnocInside(bs, b, level, i, title);
    }
  }

  /** The rest of the step when the appended block ends the open section. */
  lemma GroupSnocClosing(bs: seq<Block>, b: Block, level: nat, i: nat, title: string)
    requires i < |bs| && Boundary(b, level)
    ensures
      var s := bs + [b];
      [Section(title, KeptBetween(s, level, i + 1, |bs|))] + GroupFrom(s, level, |bs|)
        == Step([Section(title, KeptBetween(bs, level, i + 1, |bs|))], true, b, level)
      && IsOpenFrom(s, level, |bs|) == Opens(b, level)
  {
    var s := bs + [b];
    var head := Section(title, KeptBetween(bs, level, i + 1, |bs|));
    assert KeptBetween(s, level, i + 1, |bs|) == head.children by {
      KeptBetweenSnoc(bs, b, level, i + 1, |bs|);
    }
    assert GroupFrom(s, level, |bs|) == Step([], false, b, level) && IsOpenFrom(s, level, |bs|) == Opens(b, level) by {
      assert FindOpening(bs, level, |bs|) == None;
      FindOpeningSnoc(bs, b, level, |bs|);
      GroupSnocNone(bs, b, level, |bs|);
    }
    StepClosing(head, b, level);
  }

  /** The rest of the step when the appended block falls inside the open section. */
  lemma GroupSnocInside(bs: seq<Block>, b: Block, level: nat, i: nat, title: string)
    requires i < |bs| && !Boundary(b, level)
    ensures
      var s := bs + [b];
      [Section(title, KeptBetween(s, level, i + 1, |s|))] + GroupFrom(s, level, |s|)
        == Step([Section(title, KeptBetween(bs, level, i + 1, |bs|))], true, b, level)
  {
    var s := bs + [b];
    var kept := KeptBetween(bs, level, i + 1, |bs|);
    assert KeptBetween(s, level, i + 1, |s|) == kept + (if Kept(b, level) then [b] else []) by {
      KeptBetweenSnoc(bs, b, level, i + 1, |bs|);
    }
    assert GroupFrom(s, level, |s|) == [] by {
      assert FindOpening(s, level, |s|) == None;
    }
    StepInside(title, kept, b, level);
  }

  /** A boundary after the open section leaves it as it is and opens the next one, if any. */
  lemma StepClosing(head: Section, b: Block, level: nat)
    requires Boundary(b, level)
    ensures [head] + Step([], false, b, level) == Step([head], true, b, level)
  {
  }

  /** A block inside the open section joins it when it is kept. */
  lemma StepInside(title: string, kept: seq<Block>, b: Block, level: nat)
    requires !Boundary(b, level)
    ensures [Section(title, kept + if Kept(b, level) then [b] else [])] + []
         == Step([Section(title, kept)], true, b, level)
  {
    if Kept(b, level) {
      assert [Section(title, kept)][..0] == [];
    } else {
      assert kept + [] == kept;
    }
  }

  /**
   * `Section.from_elements`: walks the blocks once, appending a section for
   * every titled heading of `level`, handing deeper headings and other
   * non-blank blocks to the open section, and closing it at a shallower
   * heading.
   */
  method FromElements(elements: seq<Block>, level: nat) returns (sections: seq<Section>)
    ensures sections == Group(elements, level)
  {
    sections := [];
    var open := false;
    var k := 0;
    while k < |elements|
      invariant 0 <= k <= |elements|
      invariant sections == Group(elements[..k], level)
      invariant open == IsOpen(elements[..k], level)
    {
      var element := elements[k];
      GroupSnoc(elements[..k], element, level, 0);
      assert elements[..k + 1] == elements[..k] + [element];
      if element.Heading? {
        if element.level < level {
          open := false;
        } else if element.level > level {
          if open {
            var last := sections[|sections| - 1];
            sections := sections[..|sections| - 1] + [last.(children := last.children + [element])];
          }
        } else if element.title.Some? {
          sections := sections + [Section(element.title.value, [])];
          open := true;
        }
      } else if !element.BlankLine? {
        if open {
          var last := sections[|sections| - 1];
          sections := sections[..|sections| - 1] + [last.(children := last.children + [element])];
        }
      }
      k := k + 1;
    }
    assert elements[..k] == elements;
  }

  /** The titles of the opening headings, in order. */
  function OpeningTitles(bs: seq<Block>, level: nat): seq<string> {
    if bs == [] then []
    else
      OpeningTitles(bs[..|bs| - 1], level)
      + (if Opens(bs[|bs| - 1], level) then [bs[|bs| - 1].title.value] else [])
  }

  function Titles(sections: seq<Section>): (titles: seq<string>)
    ensures |titles| == |sections|
    ensures forall k :: 0 <= k < |sections| ==> titles[k] == sections[k].title
  {
    seq(|sections|, k requires 0 <= k < |sections| => sections[k].title)
  }

  /**
   * There is one section per titled heading of the level, in document order,
   * and a section collects no blank line and no heading of its own level or
   * shallower.
   */
  lemma {:induction false} GroupTitles(bs: seq<Block>, level: nat)
    ensures Titles(Group(bs, level)) == OpeningTitles(bs, level)
    ensures forall s :: s in Group(bs, level) ==> forall k :: 0 <= k < |s.children| ==> Kept(s.children[k], level)
    decreases |bs|
  {
    if bs != [] {
      var init := bs[..|bs| - 1];
      var b := bs[|bs| - 1];
      GroupTitles(init, level);
      GroupSnoc(init, b, level, 0);
      assert init + [b] == bs;
      StepTitles(Group(init, level), IsOpen(init, level), b, level);
      StepKept(Group(init, level), IsOpen(init, level), b, level);
    }
  }

  /** A step adds the title of an opening heading, and no other. */
  lemma StepTitles(g: seq<Section>, open: bool, b: Block, level: nat)
    requires open ==> |g| > 0
    ensures Titles(Step(g, open, b, level)) == Titles(g) + (if Opens(b, level) then [b.title.value] else [])
  {
  }

  /** A step hands a section only blocks it keeps. */
  lemma StepKept(g: seq<Section>, open: bool, b: Block, level: nat)
    requires open ==> |g| > 0
    requires forall s :: s in g ==> forall k :: 0 <= k < |s.children| ==> Kept(s.children[k], level)
    ensures forall s :: s in Step(g, open, b, level) ==> forall k :: 0 <= k < |s.children| ==> Kept(s.children[k], level)
  {
    if !Opens(b, level) && open && Kept(b, level) {
      var last := g[|g| - 1];
      var last' := last.(children := last.children + [b]);
      assert last in g;
      forall s | s in Step(g, open, b, level)
        ensures forall k :: 0 <= k < |s.children| ==> Kept(s.children[k], level)
      {
        if s != last' {
          assert s in g;
        }
      }
    }
  }
}
