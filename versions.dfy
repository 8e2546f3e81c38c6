/**
 * Versions as used by the changelog: PEP 440 epoch and release segments, their
 * order, parsing and rendering, and the helpers of `_versions.py`.
 */
module Versions {
  import opened Results
  import opened Text

  /** A PEP 440 version: `epoch!release[0].release[1]...`. */
  datatype Version = Version(epoch: nat, release: seq<nat>)

  datatype BumpType = Major | Minor | Patch

  // ---------------------------------------------------------------------------
  // Order. PEP 440 compares the epoch, then the release with its trailing
  // zeros removed (so 1.0 == 1.0.0), as Python tuples.
  // ---------------------------------------------------------------------------

  function StripZeros(r: seq<nat>): (t: seq<nat>)
    ensures |t| <= |r| && t == r[..|t|]
    ensures t == [] || t[|t| - 1] != 0
    ensures forall k :: |t| <= k < |r| ==> r[k] == 0
  {
    if r != [] && r[|r| - 1] == 0 then StripZeros(r[..|r| - 1]) else r
  }

  /** Python's tuple `<`: lexicographic, a proper prefix first. */
  predicate ReleaseLess(a: seq<nat>, b: seq<nat>)
    decreases |a|
  {
    if a == [] then b != []
    else if b == [] then false
    else a[0] < b[0] || (a[0] == b[0] && ReleaseLess(a[1..], b[1..]))
  }

  predicate Less(a: Version, b: Version) {
    a.epoch < b.epoch
    || (a.epoch == b.epoch && ReleaseLess(StripZeros(a.release), StripZeros(b.release)))
  }

  /** Python's `==` on versions. */
  predicate Same(a: Version, b: Version) {
    a.epoch == b.epoch && StripZeros(a.release) == StripZeros(b.release)
  }

  lemma {:induction false} ReleaseLessIrreflexive(a: seq<nat>)
    ensures !ReleaseLess(a, a)
    decreases |a|
  {
    if a != [] {
      ReleaseLessIrreflexive(a[1..]);
    }
  }

  lemma {:induction false} ReleaseLessTransitive(a: seq<nat>, b: seq<nat>, c: seq<nat>)
    requires ReleaseLess(a, b) && ReleaseLess(b, c)
    ensures ReleaseLess(a, c)
    decreases |a|
  {
    if a != [] && b != [] && c != [] && a[0] == b[0] == c[0] {
      ReleaseLessTransitive(a[1..], b[1..], c[1..]);
    }
  }

  lemma {:induction false} ReleaseLessTotal(a: seq<nat>, b: seq<nat>)
    ensures ReleaseLess(a, b) || a == b || ReleaseLess(b, a)
    decreases |a|
  {
    if a != [] && b != [] && a[0] == b[0] {
      ReleaseLessTotal(a[1..], b[1..]);
      if a[1..] == b[1..] {
        assert a == [a[0]] + a[1..] && b == [b[0]] + b[1..];
      }
    }
  }

  /** A proper prefix comes first. */
  lemma {:induction false} ReleaseLessPrefix(a: seq<nat>, b: seq<nat>)
    requires |a| < |b| && a == b[..|a|]
    ensures ReleaseLess(a, b)
    decreases |a|
  {
    if a != [] {
      assert a[1..] == b[1..][..|a| - 1];
      ReleaseLessPrefix(a[1..], b[1..]);
    }
  }

  /** The first differing component decides. */
  lemma {:induction false} ReleaseLessAt(a: seq<nat>, b: seq<nat>, k: nat)
    requires k < |a| && k < |b| && a[..k] == b[..k] && a[k] < b[k]
    ensures ReleaseLess(a, b)
    decreases k
  {
    if k > 0 {
      assert a[0] == a[..k][0] == b[..k][0] == b[0];
      assert a[1..][..k - 1] == a[1..k] == a[..k][1..];
      assert b[1..][..k - 1] == b[1..k] == b[..k][1..];
      ReleaseLessAt(a[1..], b[1..], k - 1);
    }
  }

  lemma LessIrreflexive(a: Version)
    ensures !Less(a, a)
  {
    ReleaseLessIrreflexive(StripZeros(a.release));
  }

  lemma LessTransitive(a: Version, b: Version, c: Version)
    requires Less(a, b) && Less(b, c)
    ensures Less(a, c)
  {
    if a.epoch == b.epoch == c.epoch {
      ReleaseLessTransitive(StripZeros(a.release), StripZeros(b.release), StripZeros(c.release));
    }
  }

  /** Versions are totally ordered up to `==`. */
  lemma LessTotal(a: Version, b: Version)
    ensures Less(a, b) || Same(a, b) || Less(b, a)
  {
    ReleaseLessTotal(StripZeros(a.release), StripZeros(b.release));
  }

  lemma LessAsymmetric(a: Version, b: Version)
    requires Less(a, b)
    ensures !Less(b, a) && !Same(a, b)
  {
    if Less(b, a) {
      LessTransitive(a, b, a);
      LessIrreflexive(a);
    }
    ReleaseLessIrreflexive(StripZeros(a.release));
  }

  // ---------------------------------------------------------------------------
  // Text form: `str(version)` and `Version(text)`
  // ---------------------------------------------------------------------------

  function ReleaseStrings(r: seq<nat>): (parts: seq<string>)
    ensures |parts| == |r|
    ensures forall k :: 0 <= k < |r| ==> parts[k] == NatToString(r[k])
  {
    seq(|r|, k requires 0 <= k < |r| => NatToString(r[k]))
  }

  /** `str(version)`: the epoch only when it is not zero, then the release joined by dots. */
  function Render(v: Version): string {
    (if v.epoch != 0 then NatToString(v.epoch) + "!" else "") + Join(ReleaseStrings(v.release), '.')
  }

  /** The release segment `N(.N)*`, or None. */
  function ParseRelease(s: string): Option<seq<nat>> {
    var parts := Split(s, '.');
    if forall k :: 0 <= k < |parts| ==> parts[k] != [] && AllDigits(parts[k]) then
      Some(seq(|parts|, k requires 0 <= k < |parts| => DigitsValue(parts[k])))
    else None
  }

  /**
   * `Version(text)` for the forms `N(.N)*` and `E!N(.N)*`; None where Python
   * raises InvalidVersion.
   */
  function Parse(s: string): Option<Version> {
    if '!' in s then
      var i := FirstIndex(s, '!');
      var e := s[..i];
      if e == [] || !AllDigits(e) then None
      else
        match ParseRelease(s[i + 1..])
        case None => None
        case Some(r) => Some(Version(DigitsValue(e), r))
    else
      match ParseRelease(s)
      case None => None
      case Some(r) => Some(Version(0, r))
  }

  predicate IsVersionText(s: string) {
    Parse(s).Some?
  }

  lemma {:induction false} JoinDigits(parts: seq<string>, sep: char)
    requires forall k :: 0 <= k < |parts| ==> AllDigits(parts[k])
    ensures forall k :: 0 <= k < |Join(parts, sep)| ==> IsDigit(Join(parts, sep)[k]) || Join(parts, sep)[k] == sep
  {
    if |parts| > 1 {
      JoinDigits(parts[1..], sep);
      var rest := Join(parts[1..], sep);
      var s := Join(parts, sep);
      assert s == parts[0] + [sep] + rest;
      forall k | 0 <= k < |s|
        ensures IsDigit(s[k]) || s[k] == sep
      {
        if k > |parts[0]| {
          assert s[k] == rest[k - |parts[0]| - 1];
        }
      }
    }
  }

  lemma ParseReleaseOfRender(r: seq<nat>)
    requires |r| > 0
    ensures ParseRelease(Join(ReleaseStrings(r), '.')) == Some(r)
  {
    var parts := ReleaseStrings(r);
    forall k | 0 <= k < |parts|
      ensures '.' !in parts[k]
    {
      assert AllDigits(parts[k]);
    }
    SplitJoin(parts, '.');
    forall k | 0 <= k < |parts|
      ensures DigitsValue(parts[k]) == r[k]
    {
      DigitsValueOfNat(r[k]);
    }
    assert seq(|parts|, k requires 0 <= k < |parts| => DigitsValue(parts[k])) == r;
  }

  /** Parsing the text form of a version gives that version back. */
  lemma ParseRender(v: Version)
    requires |v.release| > 0
    ensures Parse(Render(v)) == Some(v)
  {
    var rel := Join(ReleaseStrings(v.release), '.');
    JoinDigits(ReleaseStrings(v.release), '.');
    assert '!' !in rel by {
      forall k | 0 <= k < |rel|
        ensures rel[k] != '!'
      {
        assert IsDigit(rel[k]) || rel[k] == '.';
      }
    }
    ParseReleaseOfRender(v.release);
    if v.epoch != 0 {
      var e := NatToString(v.epoch);
      assert '!' !in e by {
        assert forall k :: 0 <= k < |e| ==> IsDigit(e[k]);
      }
      FirstIndexOfConcat(e, rel, '!');
      var s := e + ['!'] + rel;
      assert Render(v) == s;
      assert s[..|e|] == e;
      assert s[|e| + 1..] == rel;
      DigitsValueOfNat(v.epoch);
    } else {
      assert Render(v) == rel;
    }
  }

  /** The text form is made of digits, dots and the epoch mark only. */
  lemma RenderAlphabet(v: Version)
    ensures forall k :: 0 <= k < |Render(v)| ==>
      IsDigit(Render(v)[k]) || Render(v)[k] == '.' || Render(v)[k] == '!'
  {
    var rel := Join(ReleaseStrings(v.release), '.');
    JoinDigits(ReleaseStrings(v.release), '.');
    var e := if v.epoch != 0 then NatToString(v.epoch) + "!" else "";
    assert Render(v) == e + rel;
    forall k | 0 <= k < |Render(v)|
      ensures IsDigit(Render(v)[k]) || Render(v)[k] == '.' || Render(v)[k] == '!'
    {
      if k >= |e| {
        assert Render(v)[k] == rel[k - |e|];
      } else {
        assert Render(v)[k] == e[k];
      }
    }
  }

  lemma RenderNonEmpty(v: Version)
    requires |v.release| > 0
    ensures |Render(v)| > 0
  {
    ParseRender(v);
  }

  // ---------------------------------------------------------------------------
  // _versions.py
  // ---------------------------------------------------------------------------

  /** The versions of the parseable strings, in input order. */
  function ParsedVersions(strs: seq<string>): seq<Version> {
    if strs == [] then []
    else (match Parse(strs[0]) case Some(v) => [v] case None => []) + ParsedVersions(strs[1..])
  }

  lemma {:induction false} ParsedVersionsSnoc(strs: seq<string>, s: string)
    ensures ParsedVersions(strs + [s]) ==
      ParsedVersions(strs) + (match Parse(s) case Some(v) => [v] case None => [])
  {
    if strs == [] {
      assert [s][1..] == [];
    } else {
      assert (strs + [s])[1..] == strs[1..] + [s];
      ParsedVersionsSnoc(strs[1..], s);
    }
  }

  /** `parse_versions`: invalid strings are skipped. */
  method ParseVersions(strs: seq<string>) returns (versions: seq<Version>)
    ensures versions == ParsedVersions(strs)
  {
    versions := [];
    var i := 0;
    while i < |strs|
      invariant 0 <= i <= |strs|
      invariant versions == ParsedVersions(strs[..i])
    {
      ParsedVersionsSnoc(strs[..i], strs[i]);
      assert strs[..i + 1] == strs[..i] + [strs[i]];
      match Parse(strs[i]) {
        case Some(v) => versions := versions + [v];
        case None =>
      }
      i := i + 1;
    }
    assert strs[..i] == strs;
  }

  /** A version is listed exactly when some input string parses to it. */
  lemma {:induction false} ParsedVersionsMembership(strs: seq<string>, v: Version)
    ensures v in ParsedVersions(strs) <==> exists k :: 0 <= k < |strs| && Parse(strs[k]) == Some(v)
  {
    if strs != [] {
      ParsedVersionsMembership(strs[1..], v);
      if v in ParsedVersions(strs[1..]) {
        var k :| 0 <= k < |strs[1..]| && Parse(strs[1..][k]) == Some(v);
        assert Parse(strs[k + 1]) == Some(v);
      }
      if exists k :: 0 <= k < |strs| && Parse(strs[k]) == Some(v) {
        var k :| 0 <= k < |strs| && Parse(strs[k]) == Some(v);
        if k > 0 {
          assert Parse(strs[1..][k - 1]) == Some(v);
        }
      }
    }
  }

  /** Where `sorted(versions, reverse=True)[0]` is: the first of the greatest. */
  function LatestIndex(vs: seq<Version>): (k: nat)
    requires |vs| > 0
    ensures k < |vs|
    ensures forall x :: x in vs ==> !Less(vs[k], x)
    ensures forall j :: 0 <= j < k ==> Less(vs[j], vs[k])
  {
    if |vs| == 1 then
      LessIrreflexive(vs[0]);
      0
    else
      var m := 1 + LatestIndex(vs[1..]);
      assert forall j :: 1 <= j < m ==> vs[j] == vs[1..][j - 1];
      if Less(vs[0], vs[m]) then
        LessAsymmetric(vs[0], vs[m]);
        m
      else
        LatestHead(vs, m);
        0
  }

  lemma LatestHead(vs: seq<Version>, m: nat)
    requires 0 < m < |vs| && forall x :: x in vs[1..] ==> !Less(vs[m], x)
    requires !Less(vs[0], vs[m])
    ensures forall x :: x in vs ==> !Less(vs[0], x)
  {
    LessIrreflexive(vs[0]);
    LessTotal(vs[0], vs[m]);
    forall x | x in vs[1..]
      ensures !Less(vs[0], x)
    {
      if Less(vs[0], x) {
        if Less(vs[m], vs[0]) {
          LessTransitive(vs[m], vs[0], x);
        }
      }
    }
    assert vs == [vs[0]] + vs[1..];
  }

  /** `get_latest_version`. */
  function LatestVersion(vs: seq<Version>): (r: Option<Version>)
    ensures r.None? <==> vs == []
    ensures r.Some? ==> r.value in vs && forall x :: x in vs ==> !Less(r.value, x)
  {
    if vs == [] then None else Some(vs[LatestIndex(vs)])
  }

  /**
   * Where `get_previous_version` finds its answer among the first `n`
   * versions: the last, in input order, of the greatest versions strictly
   * below `v` (ascending stable sort, then one step before the first
   * occurrence of `v`).
   */
  function PreviousIndex(vs: seq<Version>, v: Version, n: nat): (r: Option<nat>)
    requires n <= |vs|
    ensures r.None? <==> forall j :: 0 <= j < n ==> !Less(vs[j], v)
    ensures r.Some? ==> r.value < n && Less(vs[r.value], v)
    ensures r.Some? ==> forall j :: 0 <= j < n && Less(vs[j], v) ==> !Less(vs[r.value], vs[j])
    ensures r.Some? ==> forall j :: r.value < j < n && Less(vs[j], v) ==> Less(vs[j], vs[r.value])
  {
    if n == 0 then None
    else
      var r := PreviousIndex(vs, v, n - 1);
      if !Less(vs[n - 1], v) then r
      else if r.Some? && Less(vs[n - 1], vs[r.value]) then
        LessAsymmetric(vs[n - 1], vs[r.value]);
        r
      else
        PreviousLast(vs, v, n - 1, r);
        Some(n - 1)
  }

  lemma PreviousLast(vs: seq<Version>, v: Version, m: nat, r: Option<nat>)
    requires m < |vs| && Less(vs[m], v)
    requires r.None? ==> forall j :: 0 <= j < m ==> !Less(vs[j], v)
    requires r.Some? ==> r.value < m && !Less(vs[m], vs[r.value])
    requires r.Some? ==> forall j :: 0 <= j < m && Less(vs[j], v) ==> !Less(vs[r.value], vs[j])
    ensures forall j :: 0 <= j <= m && Less(vs[j], v) ==> !Less(vs[m], vs[j])
  {
    LessIrreflexive(vs[m]);
    if r.Some? {
      LessTotal(vs[m], vs[r.value]);
      forall j | 0 <= j < m && Less(vs[j], v)
        ensures !Less(vs[m], vs[j])
      {
        if Less(vs[m], vs[j]) {
          if !Same(vs[m], vs[r.value]) {
            LessTransitive(vs[r.value], vs[m], vs[j]);
          }
        }
      }
    }
  }

  /** `get_previous_version`: the greatest version strictly below `v`, if any. */
  function PreviousVersion(vs: seq<Version>, v: Version): (r: Option<Version>)
    ensures r.None? <==> forall x :: x in vs ==> !Less(x, v)
    ensures r.Some? ==> r.value in vs && Less(r.value, v)
    ensures r.Some? ==> forall x :: x in vs && Less(x, v) ==> !Less(r.value, x)
  {
    match PreviousIndex(vs, v, |vs|)
    case None => None
    case Some(k) => Some(vs[k])
  }

  /** The release with one component bumped, as the `match` in `bump_version` leaves it. */
  predicate BumpedRelease(before: seq<nat>, after: seq<nat>, bump: BumpType)
    requires |before| >= 3 && |after| == |before|
  {
    && after[3..] == before[3..]
    && match bump
       case Patch => after[0] == before[0] && after[1] == before[1] && after[2] == before[2] + 1
       case Minor => after[0] == before[0] && after[1] == before[1] + 1 && after[2] == 0
       case Major => after[0] == before[0] + 1 && after[1] == 0 && after[2] == 0
  }

  /** A bump makes a strictly newer release. */
  lemma BumpIsNewer(before: seq<nat>, after: seq<nat>, k: nat)
    requires k < |before| == |after| && before[..k] == after[..k] && before[k] < after[k]
    ensures ReleaseLess(StripZeros(before), StripZeros(after))
  {
    var a, b := StripZeros(before), StripZeros(after);
    assert |b| > k;
    assert b[..k + 1] == after[..k + 1];
    if |a| > k {
      assert a[..k + 1] == before[..k + 1];
      assert a[..k] == before[..k] && b[..k] == after[..k];
      ReleaseLessAt(a, b, k);
    } else {
      assert a == before[..|a|] == after[..|a|] == b[..|a|];
      ReleaseLessPrefix(a, b);
    }
  }

  /**
   * `bump_version`: increments one release component and zeroes the ones
   * after it among the first three; keeps the epoch and any later components.
   * Fails with IndexError when the release has fewer than three components.
   */
  method BumpVersion(version: Version, bump: BumpType) returns (r: Result<Version>)
    ensures r.Failure? <==> |version.release| < 3
    ensures r.Failure? ==> r.error == IndexError
    ensures r.Success? ==> r.value.epoch == version.epoch
    ensures r.Success? ==> |r.value.release| == |version.release|
    ensures r.Success? ==> BumpedRelease(version.release, r.value.release, bump)
    ensures r.Success? ==> Less(version, r.value)
  {
    var release := version.release;
    if |release| < 3 {
      return Failure(IndexError);
    }
    match bump {
      case Patch =>
        release := release[2 := release[2] + 1];
        BumpIsNewer(version.release, release, 2);
      case Minor =>
        release := release[1 := release[1] + 1];
        release := release[2 := 0];
        assert version.release[..1] == release[..1];
        BumpIsNewer(version.release, release, 1);
      case Major =>
        release := release[0 := release[0] + 1];
        release := release[1 := 0];
        release := release[2 := 0];
        BumpIsNewer(version.release, release, 0);
    }
    var text := Render(Version(version.epoch, release));
    ParseRender(Version(version.epoch, release));
    var parsed := Parse(text);
    r := Success(parsed.value);
  }
}
