/**
 * Where `insert_version_section` puts a version section, and why a changelog
 * whose version headings are newest first stays that way.
 */
module ChangelogOrder {
  import opened Results
  import opened Versions
  import opened Markdown
  import opened VersionSections
  import opened Changelogs
  import opened Text

  /** A heading of the level has a title that reads as a version. */
  predicate Readable(b: Block, level: nat) {
    AtLevel(b, level) ==> b.title.Some? && Parse(b.title.value).Some?
  }

  predicate WellFormed(bs: seq<Block>, level: nat) {
    forall k :: 0 <= k < |bs| ==> Readable(bs[k], level)
  }

  /** The version a readable heading names. */
  function VersionAt(b: Block): Version
    requires b.Heading? && b.title.Some? && Parse(b.title.value).Some?
  {
    Parse(b.title.value).value
  }

  /** A block the scan passes over: not a heading of the level, or one newer than `v`. */
  predicate Newer(b: Block, level: nat, v: Version) {
    Readable(b, level) && (AtLevel(b, level) ==> Less(v, VersionAt(b)))
  }

  /** The versions the headings of the level name, in document order. */
  function LevelVersions(bs: seq<Block>, level: nat): seq<Version>
    requires WellFormed(bs, level)
  {
    if bs == [] then []
    else
      var last := bs[|bs| - 1];
      LevelVersions(bs[..|bs| - 1], level) + (if AtLevel(last, level) then [VersionAt(last)] else [])
  }

  /** Newest first: every later version is older. */
  predicate Descending(vs: seq<Version>) {
    forall a, b :: 0 <= a < b < |vs| ==> Less(vs[b], vs[a])
  }

  // ---------------------------------------------------------------------------
  // The scan
  // ---------------------------------------------------------------------------

  /** After the heading of the same version, the scan stops at the next heading of the level. */
  lemma {:induction false} ScanPending(bs: seq<Block>, level: nat, v: Version, from: nat, s: nat)
    requires s < from <= |bs| && WellFormed(bs, level)
    ensures Scan(bs, level, v, from, Some(s)).Success?
    ensures Scan(bs, level, v, from, Some(s)).value.Replace? ==>
      var e := Scan(bs, level, v, from, Some(s)).value.stop;
      Scan(bs, level, v, from, Some(s)).value.start == s && from <= e && AtLevel(bs[e], level)
      && forall j :: from <= j < e ==> !AtLevel(bs[j], level)
    ensures Scan(bs, level, v, from, Some(s)).value.Exhausted? ==>
      Scan(bs, level, v, from, Some(s)).value.pending == Some(s) && forall j :: from <= j < |bs| ==> !AtLevel(bs[j], level)
    ensures !Scan(bs, level, v, from, Some(s)).value.Before?
    decreases |bs| - from
  {
    if from < |bs| && !AtLevel(bs[from], level) {
      ScanPending(bs, level, v, from + 1, s);
    }
  }

  predicate NewerBetween(bs: seq<Block>, level: nat, v: Version, lo: nat, hi: nat)
    requires hi <= |bs|
  {
    forall j :: lo <= j < hi ==> Newer(bs[j], level, v)
  }

  predicate NoneBetween(bs: seq<Block>, level: nat, lo: nat, hi: nat)
    requires hi <= |bs|
  {
    forall j :: lo <= j < hi ==> !AtLevel(bs[j], level)
  }

  /** The heading at `s` is of the level and names the same version as `v`. */
  predicate SameAt(bs: seq<Block>, level: nat, v: Version, s: nat)
    requires s < |bs|
  {
    AtLevel(bs[s], level) && Readable(bs[s], level) && Same(VersionAt(bs[s]), v)
  }

  /** Why the scan from `from` settles on `d`. */
  predicate Explains(bs: seq<Block>, level: nat, v: Version, from: nat, d: Stop)
    requires from <= |bs| && WellFormed(bs, level)
  {
    match d
    case Before(at) =>
      from <= at < |bs| && AtLevel(bs[at], level) && Less(VersionAt(bs[at]), v)
      && NewerBetween(bs, level, v, from, at)
    case Replace(s, e) =>
      from <= s < e < |bs| && SameAt(bs, level, v, s) && AtLevel(bs[e], level)
      && NewerBetween(bs, level, v, from, s) && NoneBetween(bs, level, s + 1, e)
    case Exhausted(None) => NewerBetween(bs, level, v, from, |bs|)
    case Exhausted(Some(s)) =>
      from <= s < |bs| && SameAt(bs, level, v, s)
      && NewerBetween(bs, level, v, from, s) && NoneBetween(bs, level, s + 1, |bs|)
  }

  /** One more passed block at the front keeps the explanation. */
  lemma ExplainsFromEarlier(bs: seq<Block>, level: nat, v: Version, from: nat, d: Stop)
    requires from < |bs| && WellFormed(bs, level)
    requires Newer(bs[from], level, v)
    requires Explains(bs, level, v, from + 1, d)
    ensures Explains(bs, level, v, from, d)
  {
  }

  /** What the scan from a fresh start settles on, for a document whose headings all read as versions. */
  lemma {:induction false} ScanOutcome(bs: seq<Block>, level: nat, v: Version, from: nat)
    requires from <= |bs| && WellFormed(bs, level)
    ensures Scan(bs, level, v, from, None).Success?
    ensures Explains(bs, level, v, from, Scan(bs, level, v, from, None).value)
    decreases |bs| - from
  {
    if from < |bs| {
      var b := bs[from];
      assert Readable(b, level);
      if !AtLevel(b, level) {
        ScanOutcome(bs, level, v, from + 1);
        ExplainsFromEarlier(bs, level, v, from, Scan(bs, level, v, from + 1, None).value);
      } else {
        var version := VersionAt(b);
        if !Less(version, v) {
          if Same(version, v) {
            ScanPending(bs, level, v, from + 1, from);
          } else {
            LessTotal(version, v);
            ScanOutcome(bs, level, v, from + 1);
            ExplainsFromEarlier(bs, level, v, from, Scan(bs, level, v, from + 1, None).value);
          }
        }
      }
    }
  }

  /** Headings newer than `v` do not stop the scan. */
  lemma {:induction false} ScanSkipsNewer(bs: seq<Block>, level: nat, v: Version, from: nat, to: nat)
    requires from <= to <= |bs|
    requires forall j :: from <= j < to ==> Newer(bs[j], level, v)
    ensures Scan(bs, level, v, from, None) == Scan(bs, level, v, to, None)
    decreases (to as int) - (from as int)
  {
    if from < to {
      if AtLevel(bs[from], level) {
        LessAsymmetric(v, VersionAt(bs[from]));
      }
      ScanSkipsNewer(bs, level, v, from + 1, to);
    }
  }

  /** Blocks other than headings of the level do not stop the scan. */
  lemma {:induction false} ScanSkipsOthers(bs: seq<Block>, level: nat, v: Version, from: nat, to: nat, pending: Option<nat>)
    requires from <= to <= |bs|
    requires pending.Some? ==> pending.value < from
    requires forall j :: from <= j < to ==> !AtLevel(bs[j], level)
    ensures Scan(bs, level, v, from, pending) == Scan(bs, level, v, to, pending)
    decreases (to as int) - (from as int)
  {
    if from < to {
      ScanSkipsOthers(bs, level, v, from + 1, to, pending);
    }
  }

  // ---------------------------------------------------------------------------
  // Where the section goes
  // ---------------------------------------------------------------------------

  /** Past the newer versions, the section goes right before the first older one. */
  lemma InsertBeforeOlder(bs: seq<Block>, section: VersionSection, level: nat, i: nat)
    requires i < |bs| && AtLevel(bs[i], level) && Readable(bs[i], level)
    requires Less(VersionAt(bs[i]), section.version)
    requires forall j :: 0 <= j < i ==> Newer(bs[j], level, section.version)
    ensures Inserted(bs, section, level) == Success(bs[..i] + Run(section) + bs[i..])
  {
    ScanSkipsNewer(bs, level, section.version, 0, i);
  }

  /**
   * A heading of the same version is replaced together with everything up to
   * the next heading of the level.
   */
  lemma ReplaceSameVersion(bs: seq<Block>, section: VersionSection, level: nat, s: nat, e: nat)
    requires s < e < |bs|
    requires forall j :: 0 <= j < s ==> Newer(bs[j], level, section.version)
    requires AtLevel(bs[s], level) && Readable(bs[s], level) && Same(VersionAt(bs[s]), section.version)
    requires forall j :: s < j < e ==> !AtLevel(bs[j], level)
    requires AtLevel(bs[e], level) && Readable(bs[e], level)
    ensures Inserted(bs, section, level) == Success(bs[..s] + Run(section) + bs[e..])
  {
    var v := section.version;
    ScanSkipsNewer(bs, level, v, 0, s);
    assert !Less(VersionAt(bs[s]), v) by {
      LessIrreflexive(v);
    }
    ScanSkipsOthers(bs, level, v, s + 1, e, Some(s));
  }

  /**
   * With every heading newer than the section, the scan runs off the end and
   * the section goes before the last block, not after it.
   */
  lemma InsertBeforeLastBlock(bs: seq<Block>, section: VersionSection, level: nat)
    requires |bs| > 0
    requires forall j :: 0 <= j < |bs| ==> Newer(bs[j], level, section.version)
    ensures Inserted(bs, section, level) == Success(bs[..|bs| - 1] + Run(section) + bs[|bs| - 1..])
  {
    ScanSkipsNewer(bs, level, section.version, 0, |bs|);
  }

  /** An empty document has no index to insert at: Python's loop variable is unbound. */
  lemma InsertIntoEmpty(section: VersionSection, level: nat)
    ensures Inserted([], section, level) == Failure(UnboundLocalError)
  {
  }

  /**
   * As written, replacing the version whose heading is the last of its level
   * raises IndexError: the remove list never gets its end index.
   */
  lemma ReplaceLastRaises(bs: seq<Block>, section: VersionSection, level: nat, s: nat)
    requires s < |bs|
    requires forall j :: 0 <= j < s ==> Newer(bs[j], level, section.version)
    requires AtLevel(bs[s], level) && Readable(bs[s], level) && Same(VersionAt(bs[s]), section.version)
    requires forall j :: s < j < |bs| ==> !AtLevel(bs[j], level)
    ensures Inserted(bs, section, level) == Failure(IndexError)
  {
    var v := section.version;
    ScanSkipsNewer(bs, level, v, 0, s);
    assert !Less(VersionAt(bs[s]), v) by {
      LessIrreflexive(v);
    }
    ScanSkipsOthers(bs, level, v, s + 1, |bs|, Some(s));
  }

  /** A concrete changelog whose only version is replaced by a section for the same version. */
  lemma ReplaceLastExample()
    ensures
      var bs := [Heading(2, Some("1.0")), Paragraph("Fixed")];
      var section := VersionSection(2, "1.0", Version(0, [1, 0]), [Paragraph("Fixed again")]);
      Inserted(bs, section, 2) == Failure(IndexError)
  {
    var bs := [Heading(2, Some("1.0")), Paragraph("Fixed")];
    var section := VersionSection(2, "1.0", Version(0, [1, 0]), [Paragraph("Fixed again")]);
    ParseExample();
    assert SameAt(bs, 2, section.version, 0) by {
      assert VersionAt(bs[0]) == section.version;
    }
    assert !AtLevel(bs[1], 2);
    ReplaceLastRaises(bs, section, 2, 0);
  }

  lemma ParseExample()
    ensures Parse("1.0") == Some(Version(0, [1, 0]))
  {
    var v := Version(0, [1, 0]);
    ParseRender(v);
    assert ReleaseStrings(v.release) == ["1", "0"];
    JoinCons("1", ["0"], '.');
    assert Render(v) == "1.0";
  }

  // ---------------------------------------------------------------------------
  // Newest first
  // ---------------------------------------------------------------------------

  lemma {:induction false} LevelVersionsConcat(a: seq<Block>, b: seq<Block>, level: nat)
    requires WellFormed(a, level) && WellFormed(b, level)
    ensures WellFormed(a + b, level)
    ensures LevelVersions(a + b, level) == LevelVersions(a, level) + LevelVersions(b, level)
    decreases |b|
  {
    assert WellFormed(a + b, level) by {
      forall k | 0 <= k < |a + b|
        ensures Readable((a + b)[k], level)
      {
        if k < |a| {
          assert (a + b)[k] == a[k];
        } else {
          assert (a + b)[k] == b[k - |a|];
        }
      }
    }
    if b != [] {
      var b' := b[..|b| - 1];
      LevelVersionsConcat(a, b', level);
      assert (a + b)[..|a + b| - 1] == a + b';
      assert (a + b)[|a + b| - 1] == b[|b| - 1];
    } else {
      assert a + b == a;
    }
  }

  /** The headings of the level in a slice of a document. */
  lemma LevelVersionsSplit(bs: seq<Block>, level: nat, i: nat)
    requires i <= |bs| && WellFormed(bs, level)
    ensures WellFormed(bs[..i], level) && WellFormed(bs[i..], level)
    ensures LevelVersions(bs, level) == LevelVersions(bs[..i], level) + LevelVersions(bs[i..], level)
  {
    assert forall k :: 0 <= k < i ==> bs[..i][k] == bs[k];
    assert forall k :: 0 <= k < |bs| - i ==> bs[i..][k] == bs[i + k];
    LevelVersionsConcat(bs[..i], bs[i..], level);
    assert bs[..i] + bs[i..] == bs;
  }

  /** A document that opens with a heading of the level names its version first. */
  lemma LevelVersionsHead(bs: seq<Block>, level: nat)
    requires |bs| > 0 && WellFormed(bs, level)
    ensures WellFormed(bs[1..], level)
    ensures AtLevel(bs[0], level) ==> LevelVersions(bs, level) == [VersionAt(bs[0])] + LevelVersions(bs[1..], level)
    ensures !AtLevel(bs[0], level) ==> LevelVersions(bs, level) == LevelVersions(bs[1..], level)
  {
    LevelVersionsSplit(bs, level, 1);
    assert LevelVersions(bs[..1], level) == LevelVersions([], level) + (if AtLevel(bs[0], level) then [VersionAt(bs[0])] else []) by {
      assert bs[..1][..0] == [];
    }
  }

  lemma {:induction false} NoneHasNoVersions(bs: seq<Block>, level: nat)
    requires forall k :: 0 <= k < |bs| ==> !AtLevel(bs[k], level)
    ensures WellFormed(bs, level) && LevelVersions(bs, level) == []
    decreases |bs|
  {
    if bs != [] {
      NoneHasNoVersions(bs[..|bs| - 1], level);
    }
  }

  lemma {:induction false} NewerVersions(bs: seq<Block>, level: nat, v: Version)
    requires forall k :: 0 <= k < |bs| ==> Newer(bs[k], level, v)
    ensures WellFormed(bs, level)
    ensures forall k :: 0 <= k < |LevelVersions(bs, level)| ==> Less(v, LevelVersions(bs, level)[k])
    decreases |bs|
  {
    if bs != [] {
      NewerVersions(bs[..|bs| - 1], level, v);
    }
  }

  lemma DescendingSplit(a: seq<Version>, b: seq<Version>)
    requires Descending(a + b)
    ensures Descending(a) && Descending(b)
  {
    forall i, j | 0 <= i < j < |b|
      ensures Less(b[j], b[i])
    {
      assert (a + b)[|a| + i] == b[i] && (a + b)[|a| + j] == b[j];
    }
    forall i, j | 0 <= i < j < |a|
      ensures Less(a[j], a[i])
    {
      assert (a + b)[i] == a[i] && (a + b)[j] == a[j];
    }
  }

  /** Newer versions, then `v`, then older ones, is newest first. */
  lemma DescendingAround(a: seq<Version>, v: Version, c: seq<Version>)
    requires Descending(a) && Descending(c)
    requires forall k :: 0 <= k < |a| ==> Less(v, a[k])
    requires forall k :: 0 <= k < |c| ==> Less(c[k], v)
    ensures Descending(a + [v] + c)
  {
    var s := a + [v] + c;
    forall i, j | 0 <= i < j < |s|
      ensures Less(s[j], s[i])
    {
      if j < |a| {
        assert s[i] == a[i] && s[j] == a[j];
      } else if j == |a| {
        assert s[i] == a[i];
      } else if i < |a| {
        assert s[i] == a[i] && s[j] == c[j - |a| - 1];
        LessTransitive(c[j - |a| - 1], v, a[i]);
      } else if i > |a| {
        assert s[i] == c[i - |a| - 1] && s[j] == c[j - |a| - 1];
      }
    }
  }

  /** The versions after an older heading are older still. */
  lemma OlderFrom(bs: seq<Block>, level: nat, i: nat, v: Version)
    requires i < |bs| && WellFormed(bs, level) && Descending(LevelVersions(bs[i..], level))
    requires AtLevel(bs[i], level) && Less(VersionAt(bs[i]), v)
    ensures forall k :: 0 <= k < |LevelVersions(bs[i..], level)| ==> Less(LevelVersions(bs[i..], level)[k], v)
  {
    assert forall k :: 0 <= k < |bs| - i ==> bs[i..][k] == bs[i + k];
    LevelVersionsHead(bs[i..], level);
    var vs := LevelVersions(bs[i..], level);
    forall k | 0 <= k < |vs|
      ensures Less(vs[k], v)
    {
      if k > 0 {
        LessTransitive(vs[k], vs[0], v);
      }
    }
  }

  /** From a heading of the level, across blocks of other levels, to `e`. */
  lemma LevelVersionsAcross(bs: seq<Block>, level: nat, s: nat, e: nat)
    requires s < e <= |bs| && WellFormed(bs, level)
    requires AtLevel(bs[s], level) && NoneBetween(bs, level, s + 1, e)
    ensures WellFormed(bs[e..], level)
    ensures LevelVersions(bs[s..], level) == [VersionAt(bs[s])] + LevelVersions(bs[e..], level)
  {
    LevelVersionsFrom(bs, level, s);
    LevelVersionsSkip(bs, level, s + 1, e);
  }

  /** A slice that opens with a heading of the level names its version first. */
  lemma LevelVersionsFrom(bs: seq<Block>, level: nat, s: nat)
    requires s < |bs| && WellFormed(bs, level) && AtLevel(bs[s], level)
    ensures WellFormed(bs[s..], level) && WellFormed(bs[s + 1..], level)
    ensures LevelVersions(bs[s..], level) == [VersionAt(bs[s])] + LevelVersions(bs[s + 1..], level)
  {
    var t := bs[s..];
    assert forall k :: 0 <= k < |t| ==> t[k] == bs[s + k];
    LevelVersionsHead(t, level);
    assert t[1..] == bs[s + 1..];
  }

  /** Blocks of other levels name no version. */
  lemma LevelVersionsSkip(bs: seq<Block>, level: nat, lo: nat, e: nat)
    requires lo <= e <= |bs| && WellFormed(bs, level) && NoneBetween(bs, level, lo, e)
    ensures WellFormed(bs[lo..], level) && WellFormed(bs[e..], level)
    ensures LevelVersions(bs[lo..], level) == LevelVersions(bs[e..], level)
  {
    var t := bs[lo..];
    assert forall k :: 0 <= k < |t| ==> t[k] == bs[lo + k];
    LevelVersionsSplit(t, level, e - lo);
    assert t[..e - lo] == bs[lo..e] && t[e - lo..] == bs[e..];
    var gap := bs[lo..e];
    forall k | 0 <= k < |gap|
      ensures !AtLevel(gap[k], level)
    {
      assert gap[k] == bs[lo + k];
    }
    NoneHasNoVersions(gap, level);
  }

  /** The versions after the replaced section are older than the section. */
  lemma OlderAfterReplaced(bs: seq<Block>, level: nat, s: nat, e: nat, v: Version)
    requires s < e <= |bs| && WellFormed(bs, level) && Descending(LevelVersions(bs[s..], level))
    requires SameAt(bs, level, v, s) && NoneBetween(bs, level, s + 1, e)
    ensures WellFormed(bs[e..], level)
    ensures forall k :: 0 <= k < |LevelVersions(bs[e..], level)| ==> Less(LevelVersions(bs[e..], level)[k], v)
  {
    LevelVersionsAcross(bs, level, s, e);
    var vs := LevelVersions(bs[s..], level);
    var post := LevelVersions(bs[e..], level);
    forall k | 0 <= k < |post|
      ensures Less(post[k], v)
    {
      assert vs[k + 1] == post[k] && vs[0] == VersionAt(bs[s]);
      assert Less(post[k], VersionAt(bs[s]));
    }
  }

  /** Writing a section's run between newer and older versions keeps the document newest first. */
  lemma SpliceDescending(bs: seq<Block>, section: VersionSection, level: nat, lo: nat, hi: nat)
    requires lo <= hi <= |bs| && WellFormed(bs, level) && Descending(LevelVersions(bs, level))
    requires WellFormed(Run(section), level) && LevelVersions(Run(section), level) == [section.version]
    requires NewerBetween(bs, level, section.version, 0, lo)
    requires WellFormed(bs[hi..], level)
    requires forall k :: 0 <= k < |LevelVersions(bs[hi..], level)| ==> Less(LevelVersions(bs[hi..], level)[k], section.version)
    ensures WellFormed(bs[..lo] + Run(section) + bs[hi..], level)
    ensures Descending(LevelVersions(bs[..lo] + Run(section) + bs[hi..], level))
  {
    var v := section.version;
    LevelVersionsSplit(bs, level, lo);
    LevelVersionsSplit(bs[lo..], level, hi - lo);
    assert bs[lo..][hi - lo..] == bs[hi..];
    DescendingSplit(LevelVersions(bs[..lo], level), LevelVersions(bs[lo..], level));
    DescendingSplit(LevelVersions(bs[lo..][..hi - lo], level), LevelVersions(bs[hi..], level));
    assert forall k :: 0 <= k < lo ==> bs[..lo][k] == bs[k];
    NewerVersions(bs[..lo], level, v);
    LevelVersionsConcat(bs[..lo], Run(section), level);
    LevelVersionsConcat(bs[..lo] + Run(section), bs[hi..], level);
    DescendingAround(LevelVersions(bs[..lo], level), v, LevelVersions(bs[hi..], level));
  }

  /** The run written for a section names its version once, as a heading of the level. */
  lemma RunVersions(section: VersionSection, level: nat)
    requires section.level == level && Parse(section.title) == Some(section.version)
    requires forall k :: 0 <= k < |section.children| ==> !AtLevel(section.children[k], level)
    ensures WellFormed(Run(section), level) && LevelVersions(Run(section), level) == [section.version]
  {
    assert section.title != "" by {
      if section.title == "" {
        EmptyIsNoVersion();
      }
    }
    var run := Run(section);
    var rest := run[1..];
    assert forall k :: 0 <= k < |rest| ==> !AtLevel(rest[k], level);
    NoneHasNoVersions(rest, level);
    assert WellFormed(run, level) by {
      forall k | 0 <= k < |run|
        ensures Readable(run[k], level)
      {
        if k > 0 {
          assert run[k] == rest[k - 1];
        }
      }
    }
    LevelVersionsHead(run, level);
  }

  lemma EmptyIsNoVersion()
    ensures Parse("") == None
  {
    assert '!' !in "";
    var parts := Text.Split("", '.');
    assert parts == [""];
    assert parts[0] == [];
  }

  /**
   * A changelog whose version headings are newest first stays newest first
   * when `insert_version_section` succeeds, provided its last block is not a
   * version heading (the section would go before it).
   */
  lemma InsertKeepsDescending(bs: seq<Block>, section: VersionSection, level: nat)
    requires WellFormed(bs, level) && Descending(LevelVersions(bs, level))
    requires section.level == level && Parse(section.title) == Some(section.version)
    requires forall k :: 0 <= k < |section.children| ==> !AtLevel(section.children[k], level)
    requires |bs| > 0 ==> !AtLevel(bs[|bs| - 1], level)
    requires Inserted(bs, section, level).Success?
    ensures WellFormed(Inserted(bs, section, level).value, level)
    ensures Descending(LevelVersions(Inserted(bs, section, level).value, level))
  {
    var v := section.version;
    RunVersions(section, level);
    ScanOutcome(bs, level, v, 0);
    match Scan(bs, level, v, 0, None).value
    case Before(at) =>
      LevelVersionsSplit(bs, level, at);
      DescendingSplit(LevelVersions(bs[..at], level), LevelVersions(bs[at..], level));
      OlderFrom(bs, level, at, v);
      SpliceDescending(bs, section, level, at, at);
    case Replace(s, e) =>
      LevelVersionsSplit(bs, level, s);
      DescendingSplit(LevelVersions(bs[..s], level), LevelVersions(bs[s..], level));
      OlderAfterReplaced(bs, level, s, e, v);
      SpliceDescending(bs, section, level, s, e);
    case Exhausted(_) =>
      var n := |bs| - 1;
      NoneHasNoVersions(bs[n..], level);
      SpliceDescending(bs, section, level, n, n);
  }

  // ---------------------------------------------------------------------------
  // Replacing the last version section, as evidently intended
  // ---------------------------------------------------------------------------

  /**
   * `insert_version_section` with the replacement of the last version section
   * running to the end of the document, where the code as written indexes the
   * second element of a one-element list.
   */
  function IntendedInserted(bs: seq<Block>, section: VersionSection, level: nat): (r: Result<seq<Block>>)
    ensures Inserted(bs, section, level).Success? ==> r == Inserted(bs, section, level)
    ensures Scan(bs, level, section.version, 0, None).Failure? ==> r == Inserted(bs, section, level)
  {
    match Scan(bs, level, section.version, 0, None)
    case Success(Exhausted(Some(s))) => Success(bs[..s] + Run(section))
    case _ => Inserted(bs, section, level)
  }

  /** The corrected insert replaces the last version section by the new run. */
  lemma IntendedReplacesLast(bs: seq<Block>, section: VersionSection, level: nat, s: nat)
    requires s < |bs|
    requires forall j :: 0 <= j < s ==> Newer(bs[j], level, section.version)
    requires SameAt(bs, level, section.version, s)
    requires forall j :: s < j < |bs| ==> !AtLevel(bs[j], level)
    ensures IntendedInserted(bs, section, level) == Success(bs[..s] + Run(section))
  {
    var v := section.version;
    ScanSkipsNewer(bs, level, v, 0, s);
    assert !Less(VersionAt(bs[s]), v) by {
      LessIrreflexive(v);
    }
    ScanSkipsOthers(bs, level, v, s + 1, |bs|, Some(s));
  }

  /** On the changelog of `ReplaceLastExample` the corrected insert writes the new entry in place of the old. */
  lemma IntendedReplaceExample()
    ensures
      var bs := [Heading(2, Some("1.0")), Paragraph("Fixed")];
      var section := VersionSection(2, "1.0", Version(0, [1, 0]), [Paragraph("Fixed again")]);
      IntendedInserted(bs, section, 2) == Success([Heading(2, Some("1.0")), BlankLine, Paragraph("Fixed again")])
  {
    var bs := [Heading(2, Some("1.0")), Paragraph("Fixed")];
    var section := VersionSection(2, "1.0", Version(0, [1, 0]), [Paragraph("Fixed again")]);
    ParseExample();
    assert SameAt(bs, 2, section.version, 0) by {
      assert VersionAt(bs[0]) == section.version;
    }
    assert !AtLevel(bs[1], 2);
    IntendedReplacesLast(bs, section, 2, 0);
    assert Element(section) == Heading(2, Some("1.0"));
    assert bs[..0] + Run(section) == [Heading(2, Some("1.0")), BlankLine, Paragraph("Fixed again")];
  }

  /**
   * The corrected insert succeeds on every non-empty well-formed changelog and
   * keeps its version headings newest first.
   */
  lemma IntendedKeepsDescending(bs: seq<Block>, section: VersionSection, level: nat)
    requires WellFormed(bs, level) && Descending(LevelVersions(bs, level))
    requires section.level == level && Parse(section.title) == Some(section.version)
    requires forall k :: 0 <= k < |section.children| ==> !AtLevel(section.children[k], level)
    requires |bs| > 0 && !AtLevel(bs[|bs| - 1], level)
    ensures IntendedInserted(bs, section, level).Success?
    ensures WellFormed(IntendedInserted(bs, section, level).value, level)
    ensures Descending(LevelVersions(IntendedInserted(bs, section, level).value, level))
  {
    var v := section.version;
    ScanOutcome(bs, level, v, 0);
    match Scan(bs, level, v, 0, None).value
    case Exhausted(Some(s)) =>
      RunVersions(section, level);
      LevelVersionsSplit(bs, level, s);
      DescendingSplit(LevelVersions(bs[..s], level), LevelVersions(bs[s..], level));
      assert bs[|bs|..] == [];
      SpliceDescending(bs, section, level, s, |bs|);
      assert bs[..s] + Run(section) + bs[|bs|..] == bs[..s] + Run(section);
    case _ =>
      InsertKeepsDescending(bs, section, level);
  }
}
