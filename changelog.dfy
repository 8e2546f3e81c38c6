/**
 * `Changelog`: a Markdown document whose headings of one level name released
 * versions, newest first; reading its version sections back and placing a new
 * version section in it.
 */
module Changelogs {
  import opened Results
  import opened Versions
  import opened Markdown
  import Sections
  import opened VersionSections

  /** `Changelog.new`: a `# Changelog` heading followed by two blank lines. */
  method NewChangelog() returns (log: Document)
    ensures fresh(log)
    ensures log.children == [NewHeading("Changelog", 1), BlankLine, BlankLine]
  {
    log := new Document.Empty();
    log.AddChild(NewHeading("Changelog", 1));
    log.AddChild(BlankLine);
    log.AddChild(BlankLine);
  }

  // ---------------------------------------------------------------------------
  // Reading the version sections
  // ---------------------------------------------------------------------------

  /**
   * `VersionSection.new` applied to each section in order: the first title
   * that is not a version raises InvalidVersion.
   */
  function VersionsOf(groups: seq<Sections.Section>, level: nat): (r: Result<seq<VersionSection>>)
    ensures r.Failure? <==> exists k :: 0 <= k < |groups| && !IsVersionText(groups[k].title)
    ensures r.Failure? ==>
      exists k :: 0 <= k < |groups| && r.error == InvalidVersion(groups[k].title)
        && !IsVersionText(groups[k].title) && forall j :: 0 <= j < k ==> IsVersionText(groups[j].title)
    ensures r.Success? ==>
      |r.value| == |groups|
      && forall k :: 0 <= k < |groups| ==> New(groups[k].title, level, groups[k].children) == Success(r.value[k])
  {
    if groups == [] then Success([])
    else
      match New(groups[0].title, level, groups[0].children)
      case Failure(e) => Failure(e)
      case Success(first) =>
        var rest := VersionsOf(groups[1..], level);
        assert forall k :: 1 <= k < |groups| ==> groups[1..][k - 1] == groups[k];
        match rest
        case Failure(e) => Failure(e)
        case Success(more) => Success([first] + more)
  }

  /** `Changelog.versions`: the version sections opened by headings of `level`. */
  method ListVersions(log: Document, level: nat) returns (r: Result<seq<VersionSection>>)
    ensures r == VersionsOf(Sections.Group(log.children, level), level)
  {
    var groups := Sections.FromElements(log.children, level);
    r := VersionsOf(groups, level);
  }

  /** A new changelog holds no version section at any level below its title's. */
  lemma NewChangelogHasNoVersions(level: nat)
    requires level >= 2
    ensures VersionsOf(Sections.Group([NewHeading("Changelog", 1), BlankLine, BlankLine], level), level) == Success([])
  {
    var bs := [NewHeading("Changelog", 1), BlankLine, BlankLine];
    assert Sections.FindOpening(bs, level, 0) == None by {
      assert !Sections.Opens(bs[0], level) && !Sections.Opens(bs[1], level) && !Sections.Opens(bs[2], level);
    }
  }

  /** The index of the first section at or after `from` whose version equals `version`, or the end. */
  function FirstSame(sections: seq<VersionSection>, version: Version, from: nat): (k: nat)
    requires from <= |sections|
    ensures from <= k <= |sections|
    ensures k < |sections| ==> Same(sections[k].version, version)
    ensures forall j :: from <= j < k ==> !Same(sections[j].version, version)
    decreases |sections| - from
  {
    if from == |sections| || Same(sections[from].version, version) then from
    else FirstSame(sections, version, from + 1)
  }

  /** The first section whose version equals `version`. */
  function SectionFor(sections: seq<VersionSection>, version: Version): (r: Option<VersionSection>)
    ensures r.None? <==> forall k :: 0 <= k < |sections| ==> !Same(sections[k].version, version)
    ensures r.Some? ==>
      exists k :: 0 <= k < |sections| && sections[k] == r.value && Same(r.value.version, version)
        && forall j :: 0 <= j < k ==> !Same(sections[j].version, version)
  {
    var k := FirstSame(sections, version, 0);
    if k == |sections| then None else Some(sections[k])
  }

  /** `Changelog.get_version_section`: the level-two section of `version`, if any. */
  method GetVersionSection(log: Document, version: Version) returns (r: Result<Option<VersionSection>>)
    ensures VersionsOf(Sections.Group(log.children, 2), 2).Failure? ==>
      r == Failure(VersionsOf(Sections.Group(log.children, 2), 2).error)
    ensures VersionsOf(Sections.Group(log.children, 2), 2).Success? ==>
      r == Success(SectionFor(VersionsOf(Sections.Group(log.children, 2), 2).value, version))
  {
    var sections :- ListVersions(log, 2);
    var section := FindSection(sections, version);
    return Success(section);
  }

  /** The scan of `get_version_section` over the listed sections, stopping at the first match. */
  method FindSection(sections: seq<VersionSection>, version: Version) returns (r: Option<VersionSection>)
    ensures r == SectionFor(sections, version)
  {
    var k := 0;
    while k < |sections|
      invariant 0 <= k <= |sections|
      invariant forall j :: 0 <= j < k ==> !Same(sections[j].version, version)
    {
      if Same(sections[k].version, version) {
        return Some(sections[k]);
      }
      k := k + 1;
    }
    return None;
  }

  // ---------------------------------------------------------------------------
  // Placing a version section
  // ---------------------------------------------------------------------------

  const NoChanges: string := "<!-- No changes -->"

  /** Whether `b` is a heading of the version level. */
  predicate AtLevel(b: Block, level: nat) {
    b.Heading? && b.level == level
  }

  /** What the scan over the top-level blocks settles on. */
  datatype Stop =
    | Before(at: nat)
    | Replace(start: nat, stop: nat)
    | Exhausted(pending: Option<nat>)

  /**
   * The scan of `insert_version_section` from block `from`, with the heading of
   * the same version already met at `pending`, if any. A heading of the level
   * with no title raises IndexError and one that is not a version raises
   * InvalidVersion; after a heading of the same version, the next heading of
   * the level ends the replaced range; otherwise the first older version
   * stops the scan.
   */
  function Scan(bs: seq<Block>, level: nat, v: Version, from: nat, pending: Option<nat>): (r: Result<Stop>)
    requires from <= |bs|
    requires pending.Some? ==> pending.value < from
    ensures r.Success? && r.value.Before? ==> pending.None? && from <= r.value.at < |bs|
    ensures r.Success? && r.value.Replace? ==> r.value.start < r.value.stop < |bs|
    ensures r.Success? && r.value.Exhausted? && r.value.pending.Some? ==> r.value.pending.value < |bs|
    decreases |bs| - from
  {
    if from == |bs| then Success(Exhausted(pending))
    else if AtLevel(bs[from], level) then
      match bs[from].title
      case None => Failure(IndexError)
      case Some(title) =>
        match Parse(title)
        case None => Failure(InvalidVersion(title))
        case Some(version) =>
          if pending.Some? then Success(Replace(pending.value, from))
          else if Less(version, v) then Success(Before(from))
          else Scan(bs, level, v, from + 1, if Same(version, v) then Some(from) else None)
    else Scan(bs, level, v, from + 1, pending)
  }

  /** The blocks written for a section: heading, blank line, then its children or a placeholder. */
  function Run(section: VersionSection): (run: seq<Block>)
    ensures |run| >= 3 && run[0] == Element(section) && run[1] == BlankLine
  {
    [Element(section), BlankLine]
    + (if section.children == [] then [Html(NoChanges), BlankLine] else section.children)
  }

  /** `list.insert` at an index within the list. */
  function Insert<T>(s: seq<T>, i: nat, x: T): seq<T>
    requires i <= |s|
  {
    s[..i] + [x] + s[i..]
  }

  /** The two placeholder inserts of an empty section complete its run. */
  lemma PlaceholderInserts(before: seq<Block>, section: VersionSection, rest: seq<Block>)
    requires section.children == []
    ensures
      var s := before + [Element(section), BlankLine] + rest;
      Insert(Insert(s, |before| + 2, BlankLine), |before| + 2, Html(NoChanges)) == before + Run(section) + rest
  {
    var head := [Element(section), BlankLine];
    InsertAt(before, head, rest, BlankLine);
    var t := before + (head + [BlankLine]) + rest;
    assert t[..|before| + 2] == before + head;
    assert t[|before| + 2..] == [BlankLine] + rest;
  }

  /** Inserting right after `middle` extends it. */
  lemma InsertAt<T>(before: seq<T>, middle: seq<T>, rest: seq<T>, x: T)
    ensures Insert(before + middle + rest, |before| + |middle|, x) == before + (middle + [x]) + rest
  {
    var s := before + middle + rest;
    assert s[..|before| + |middle|] == before + middle;
    assert s[|before| + |middle|..] == rest;
  }

  /** The remove list as the scan's pending heading. */
  function Pending(remove: seq<nat>): Option<nat> {
    if remove == [] then None else Some(remove[0])
  }

  /**
   * `Changelog.insert_version_section` on the top-level blocks `bs`: the
   * blocks afterwards, or the exception raised (the blocks are then unchanged).
   */
  function Inserted(bs: seq<Block>, section: VersionSection, level: nat): Result<seq<Block>> {
    match Scan(bs, level, section.version, 0, None)
    case Failure(e) => Failure(e)
    case Success(Before(i)) =>
      Success(bs[..i] + Run(section) + bs[i..])
    case Success(Replace(s, e)) =>
      Success(bs[..s] + Run(section) + bs[e..])
    case Success(Exhausted(Some(_))) => Failure(IndexError)
    case Success(Exhausted(None)) =>
      if bs == [] then Failure(UnboundLocalError)
      else
        var i := |bs| - 1;
        Success(bs[..i] + Run(section) + bs[i..])
  }

  /**
   * How the scan's outcome shows in the loop's variables: the remove list and
   * the last index the loop reached, unbound when there was no block at all.
   */
  predicate Settled(d: Stop, remove: seq<nat>, i: Option<nat>, n: nat) {
    match d
    case Replace(start, stop) => remove == [start, stop] && i == Some(stop)
    case Before(at) => remove == [] && i == Some(at)
    case Exhausted(pending) =>
      |remove| <= 1 && Pending(remove) == pending && i == if n == 0 then None else Some(n - 1)
  }

  /** What the loop's variables leave `insert_version_section` to do. */
  lemma InsertedSettled(bs: seq<Block>, section: VersionSection, level: nat, remove: seq<nat>, i: Option<nat>)
    requires Scan(bs, level, section.version, 0, None).Success?
    requires Settled(Scan(bs, level, section.version, 0, None).value, remove, i, |bs|)
    ensures |remove| == 1 ==> Inserted(bs, section, level) == Failure(IndexError)
    ensures remove == [] && i.None? ==> Inserted(bs, section, level) == Failure(UnboundLocalError)
    ensures |remove| == 2 ==>
      remove[0] < remove[1] < |bs|
      && Inserted(bs, section, level) == Success(bs[..remove[0]] + Run(section) + bs[remove[1]..])
    ensures remove == [] && i.Some? ==>
      i.value < |bs| && Inserted(bs, section, level) == Success(bs[..i.value] + Run(section) + bs[i.value..])
    ensures |remove| <= 2
  {
  }

  /**
   * The loop of `insert_version_section` over the document's blocks: the
   * remove list and the index it stops at, or the exception a heading raises.
   */
  method ScanHeadings(elements: seq<Block>, level: nat, v: Version) returns (r: Result<(seq<nat>, Option<nat>)>)
    ensures r.Failure? <==> Scan(elements, level, v, 0, None).Failure?
    ensures r.Failure? ==> r.error == Scan(elements, level, v, 0, None).error
    ensures r.Success? ==> Settled(Scan(elements, level, v, 0, None).value, r.value.0, r.value.1, |elements|)
  {
    var remove: seq<nat> := [];
    var i: Option<nat> := None;
    var k := 0;
    ghost var whole := Scan(elements, level, v, 0, None);
    while k < |elements|
      invariant 0 <= k <= |elements|
      invariant |remove| <= 1 && (remove != [] ==> remove[0] < k)
      invariant i == if k == 0 then None else Some(k - 1)
      invariant whole == Scan(elements, level, v, k, Pending(remove))
    {
      i := Some(k);
      var element := elements[k];
      if AtLevel(element, level) {
        if element.title.None? {
          return Failure(IndexError);
        }
        var title := element.title.value;
        var parsed := Parse(title);
        if parsed.None? {
          return Failure(InvalidVersion(title));
        }
        var version := parsed.value;
        if remove != [] {
          remove := remove + [k];
          break;
        }
        if Less(version, v) {
          break;
        }
        if Same(version, v) {
          remove := [k];
        }
      }
      k := k + 1;
    }
    r := Success((remove, i));
  }

  /** The pops of `insert_version_section`: drops the blocks from `start` up to `stop`. */
  method RemoveRange(log: Document, start: nat, stop: nat)
    requires start <= stop <= |log.children|
    modifies log
    ensures log.children == old(log.children)[..start] + old(log.children)[stop..]
  {
    ghost var before := log.children;
    var j := start;
    while j < stop
      invariant start <= j <= stop
      invariant log.children == before[..start] + before[j..]
    {
      log.children := log.children[..start] + log.children[start + 1..];
      j := j + 1;
    }
  }

  /**
   * The inserts of `insert_version_section`: the section's heading, a blank
   * line and its children (or the placeholder) at index `at`.
   */
  method PlaceRun(log: Document, at: nat, section: VersionSection)
    requires at <= |log.children|
    modifies log
    ensures log.children == old(log.children)[..at] + Run(section) + old(log.children)[at..]
  {
    ghost var before := log.children[..at];
    ghost var rest := log.children[at..];
    var head := [Element(section), BlankLine];
    assert log.children == before + [] + rest;
    InsertAt(before, [], rest, Element(section));
    log.children := Insert(log.children, at, Element(section));
    InsertAt(before, [Element(section)], rest, BlankLine);
    log.children := Insert(log.children, at + 1, BlankLine);
    assert [Element(section)] + [BlankLine] == head + section.children[..0];
    var offset := 0;
    while offset < |section.children|
      invariant 0 <= offset <= |section.children|
      invariant |before| == at && |head| == 2
      invariant log.children == before + (head + section.children[..offset]) + rest
    {
      InsertAt(before, head + section.children[..offset], rest, section.children[offset]);
      log.children := Insert(log.children, at + 2 + offset, section.children[offset]);
      assert head + section.children[..offset + 1] == head + section.children[..offset] + [section.children[offset]];
      offset := offset + 1;
    }
    assert section.children[..offset] == section.children;
    if section.children == [] {
      assert log.children == before + head + rest;
      PlaceholderInserts(before, section, rest);
      log.children := Insert(log.children, at + 2, BlankLine);
      log.children := Insert(log.children, at + 2, Html(NoChanges));
    }
  }

  /** `Changelog.insert_version_section`, updating the document's blocks in place. */
  method InsertVersionSection(log: Document, section: VersionSection, level: nat) returns (r: Result<()>)
    modifies log
    ensures Inserted(old(log.children), section, level).Failure? ==>
      r == Failure(Inserted(old(log.children), section, level).error) && log.children == old(log.children)
    ensures Inserted(old(log.children), section, level).Success? ==>
      r == Success(()) && log.children == Inserted(old(log.children), section, level).value
  {
    ghost var start := log.children;
    var scanned := ScanHeadings(log.children, level, section.version);
    if scanned.Failure? {
      return Failure(scanned.error);
    }
    var remove := scanned.value.0;
    var i := scanned.value.1;
    InsertedSettled(start, section, level, remove, i);
    if remove != [] {
      if |remove| < 2 {
        return Failure(IndexError);
      }
      RemoveRange(log, remove[0], remove[1]);
      i := Some(remove[0]);
    }
    if i.None? {
      return Failure(UnboundLocalError);
    }
    PlaceRun(log, i.value, section);
    r := Success(());
  }
}
