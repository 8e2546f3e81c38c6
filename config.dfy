/**
 * The configuration options of `_config.py` that the changelog and release
 * logic read, their defaults, and the label helpers.
 */
module Config {
  import opened Results
  import opened Text
  import opened Versions

  /** An entry of `require-labels` / `ignore-labels`: a bare label, or labels for one submodule. */
  datatype LabelSpec =
    | Plain(name: string)
    | SubmoduleLabels(submodule: string, labels: set<string>)

  /** No key occurs twice, as in a Python dict. */
  predicate DistinctKeys(table: seq<(string, string)>) {
    forall i, j :: 0 <= i < j < |table| ==> table[i].0 != table[j].0
  }

  /** `changelog-sections`: an insertion-ordered dict from label to section title. */
  type SectionTable = table: seq<(string, string)> | DistinctKeys(table) witness []

  datatype Config = Config(
    majorLabels: set<string>,
    minorLabels: set<string>,
    patchLabels: set<string>,
    requireLabels: seq<LabelSpec>,
    ignoreLabels: seq<LabelSpec>,
    changelogFile: string,
    changelogContributors: bool,
    changelogSections: SectionTable,
    changelogIgnoreLabels: set<string>,
    changelogIgnoreAuthors: set<string>,
    defaultBumpType: BumpType,
    versionTagPrefix: string)

  /** The field defaults, which apply when `pyproject.toml` has no `[tool.rooster]` table. */
  const Default: Config := Config(
    majorLabels := {"breaking"},
    minorLabels := {"feature"},
    patchLabels := {"fix"},
    requireLabels := [],
    ignoreLabels := [],
    changelogFile := "CHANGELOG.md",
    changelogContributors := true,
    changelogSections := [],
    changelogIgnoreLabels := {},
    changelogIgnoreAuthors := {"dependabot"},
    defaultBumpType := Patch,
    versionTagPrefix := "")

  /** The keys of the section table, in order. */
  function SectionKeys(table: SectionTable): (keys: seq<string>)
    ensures |keys| == |table|
    ensures forall k :: 0 <= k < |table| ==> keys[k] == table[k].0
  {
    seq(|table|, k requires 0 <= k < |table| => table[k].0)
  }

  /** Where `key` sits in the section table, if it is a key. */
  function KeyIndex(table: SectionTable, key: string): (r: Option<nat>)
    ensures r.None? <==> forall k :: 0 <= k < |table| ==> table[k].0 != key
    ensures r.Some? ==> r.value < |table| && table[r.value].0 == key
  {
    if table == [] then None
    else if table[|table| - 1].0 == key then Some(|table| - 1)
    else KeyIndex(table[..|table| - 1], key)
  }

  /** `changelog_sections.get(key)`. */
  function SectionTitle(table: SectionTable, key: string): (r: Option<string>)
    ensures r.Some? <==> exists k :: 0 <= k < |table| && table[k].0 == key
    ensures r.Some? ==> (key, r.value) in table
  {
    match KeyIndex(table, key)
    case None => None
    case Some(k) => Some(table[k].1)
  }

  /** A key has one title: `get` returns the title paired with the key. */
  lemma SectionTitleOf(table: SectionTable, k: nat)
    requires k < |table|
    ensures SectionTitle(table, table[k].0) == Some(table[k].1)
  {
    var r := KeyIndex(table, table[k].0);
    assert r.value == k;
  }

  /** `to_kebab`: the alias of an option. */
  function ToKebab(name: string): string {
    Replace(name, "_", "-")
  }

  /** Every `_` becomes `-` and nothing else changes. */
  lemma ToKebabChars(name: string)
    ensures |ToKebab(name)| == |name|
    ensures forall k :: 0 <= k < |name| ==>
      ToKebab(name)[k] == (if name[k] == '_' then '-' else name[k])
    ensures '_' !in ToKebab(name)
  {
    ReplaceCharAt(name, '_', '-');
    if '_' in ToKebab(name) {
      var k :| 0 <= k < |name| && ToKebab(name)[k] == '_';
    }
  }

  /** Converting twice is converting once. */
  lemma ToKebabIdempotent(name: string)
    ensures ToKebab(ToKebab(name)) == ToKebab(name)
  {
    ToKebabChars(name);
    ToKebabChars(ToKebab(name));
  }

  /** The bare labels of a label list. */
  function PlainLabels(specs: seq<LabelSpec>): (labels: set<string>)
    ensures forall l :: l in labels <==> Plain(l) in specs
  {
    set k | 0 <= k < |specs| && specs[k].Plain? :: specs[k].name
  }

  /** `global_required_labels`: the `require-labels` entries that are bare labels. */
  function GlobalRequiredLabels(config: Config): (labels: set<string>)
    ensures forall l :: l in labels <==> Plain(l) in config.requireLabels
  {
    PlainLabels(config.requireLabels)
  }

  /**
   * `global_ignored_labels`: the bare `ignore-labels` entries together with
   * `changelog-ignore-labels`.
   */
  function GlobalIgnoredLabels(config: Config): (labels: set<string>)
    ensures forall l :: l in labels <==> Plain(l) in config.ignoreLabels || l in config.changelogIgnoreLabels
  {
    PlainLabels(config.ignoreLabels) + config.changelogIgnoreLabels
  }

  /** `Path.name`: the last component of a path given as its components. */
  function PathName(path: seq<string>): string {
    if path == [] then "" else path[|path| - 1]
  }

  /** The first submodule entry named `name`. */
  function FirstSubmodule(specs: seq<LabelSpec>, name: string): (r: Option<nat>)
    ensures r.None? <==> forall k :: 0 <= k < |specs| ==> !(specs[k].SubmoduleLabels? && specs[k].submodule == name)
    ensures r.Some? ==> r.value < |specs| && specs[r.value].SubmoduleLabels? && specs[r.value].submodule == name
    ensures r.Some? ==> forall k :: 0 <= k < r.value ==> !(specs[k].SubmoduleLabels? && specs[k].submodule == name)
  {
    if specs == [] then None
    else if specs[0].SubmoduleLabels? && specs[0].submodule == name then Some(0)
    else
      match FirstSubmodule(specs[1..], name)
      case None => None
      case Some(k) => Some(k + 1)
  }

  /**
   * The labels of the first submodule entry whose name is the path's last
   * component; None (the function falls off its loop) when there is none.
   */
  function LabelsForSubmodule(specs: seq<LabelSpec>, path: seq<string>): (r: Option<set<string>>)
    ensures r.None? <==> forall s :: s in specs && s.SubmoduleLabels? ==> s.submodule != PathName(path)
    ensures r.Some? ==> SubmoduleLabels(PathName(path), r.value) in specs
    ensures r.Some? ==>
      exists k :: 0 <= k < |specs| && specs[k] == SubmoduleLabels(PathName(path), r.value)
        && forall j :: 0 <= j < k ==> !(specs[j].SubmoduleLabels? && specs[j].submodule == PathName(path))
  {
    match FirstSubmodule(specs, PathName(path))
    case None => None
    case Some(k) => Some(specs[k].labels)
  }

  /** `required_labels_for_submodule`. */
  function RequiredLabelsForSubmodule(config: Config, path: seq<string>): (r: Option<set<string>>)
    ensures r.None? <==> forall s :: s in config.requireLabels && s.SubmoduleLabels? ==> s.submodule != PathName(path)
    ensures r.Some? ==> SubmoduleLabels(PathName(path), r.value) in config.requireLabels
    ensures r.Some? ==>
      exists k :: 0 <= k < |config.requireLabels| && config.requireLabels[k] == SubmoduleLabels(PathName(path), r.value)
        && forall j :: 0 <= j < k ==> !(config.requireLabels[j].SubmoduleLabels? && config.requireLabels[j].submodule == PathName(path))
  {
    LabelsForSubmodule(config.requireLabels, path)
  }

  /** `ignored_labels_for_submodule`. */
  function IgnoredLabelsForSubmodule(config: Config, path: seq<string>): (r: Option<set<string>>)
    ensures r.None? <==> forall s :: s in config.ignoreLabels && s.SubmoduleLabels? ==> s.submodule != PathName(path)
    ensures r.Some? ==> SubmoduleLabels(PathName(path), r.value) in config.ignoreLabels
    ensures r.Some? ==>
      exists k :: 0 <= k < |config.ignoreLabels| && config.ignoreLabels[k] == SubmoduleLabels(PathName(path), r.value)
        && forall j :: 0 <= j < k ==> !(config.ignoreLabels[j].SubmoduleLabels? && config.ignoreLabels[j].submodule == PathName(path))
  {
    LabelsForSubmodule(config.ignoreLabels, path)
  }

  /** When a submodule is listed more than once, the first entry wins, wherever it stands. */
  lemma FirstSubmoduleWins(pre: seq<LabelSpec>, path: seq<string>, a: set<string>, rest: seq<LabelSpec>)
    requires forall j :: 0 <= j < |pre| ==> !(pre[j].SubmoduleLabels? && pre[j].submodule == PathName(path))
    ensures LabelsForSubmodule(pre + [SubmoduleLabels(PathName(path), a)] + rest, path) == Some(a)
  {
    var specs := pre + [SubmoduleLabels(PathName(path), a)] + rest;
    assert specs[|pre|] == SubmoduleLabels(PathName(path), a);
    assert forall j :: 0 <= j < |pre| ==> specs[j] == pre[j];
  }

  /** The defaults: no global or submodule label requirements, only `dependabot` ignored. */
  lemma DefaultLabels(path: seq<string>)
    ensures GlobalRequiredLabels(Default) == {} && GlobalIgnoredLabels(Default) == {}
    ensures RequiredLabelsForSubmodule(Default, path) == None
    ensures IgnoredLabelsForSubmodule(Default, path) == None
    ensures Default.changelogIgnoreAuthors == {"dependabot"}
  {
  }
}
