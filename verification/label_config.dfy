/** The label configuration file and how a repository's labels are resolved from it
    (`get_labels_for_repo` in manual_scripts/labels.py). */
module LabelConfig {
  import opened Wrappers
  import opened Text
  import opened Dicts

  /** One category of a label group: the colour its labels share, and each label's
      description (`null` in the file is `None`). */
  datatype Category = Category(color: string, labels: Dict<string, Option<string>>)

  /** The configuration file: the group specs each repository lists, and the categories
      each group defines. The group named "" applies to every repository. */
  datatype Config = Config(
    repositories: map<string, seq<string>>,
    labels: map<string, Dict<string, Category>>)

  /** What a repository should carry for one label. */
  datatype LabelSpec = LabelSpec(color: string, description: Option<string>)

  /** One group spec cut at its commas, each name stripped of surrounding whitespace:
      `[g.strip() for g in group_spec.split(",")]`. */
  function GroupNames(spec: string): (gs: seq<string>)
    ensures |gs| == |Split(spec, ',')| >= 1
    ensures forall i :: 0 <= i < |gs| ==> Stripped(Split(spec, ',')[i], gs[i], IsPythonSpace)
    ensures forall i :: 0 <= i < |gs| ==> ',' !in gs[i]
  {
    var parts := Split(spec, ',');
    var gs := seq(|parts|, i requires 0 <= i < |parts| => Strip(parts[i], IsPythonSpace));
    forall i | 0 <= i < |gs| ensures ',' !in gs[i] {
      assert parts[i] in parts;
      StripKeepsAbsentChar(parts[i], IsPythonSpace, ',');
    }
    gs
  }

  /** Names without commas and without surrounding whitespace, written as one spec
      separated by commas, are read back as they were. */
  lemma GroupNamesOfJoin(names: seq<string>)
    requires |names| >= 1
    requires forall i :: 0 <= i < |names| ==> ',' !in names[i]
    requires forall i :: 0 <= i < |names| ==>
      |names[i]| == 0 || (!IsPythonSpace(names[i][0]) && !IsPythonSpace(names[i][|names[i]| - 1]))
    ensures GroupNames(Join(names, ',')) == names
  {
    SplitJoin(names, ',');
    var gs := GroupNames(Join(names, ','));
    forall i | 0 <= i < |names| ensures gs[i] == names[i] {
      StripUnpadded(names[i], IsPythonSpace);
      assert Stripped(names[i], names[i], IsPythonSpace);
      StrippedUnique(names[i], gs[i], names[i], IsPythonSpace);
    }
  }

  /** The sequences of `xss`, one after another. */
  function Flatten<T>(xss: seq<seq<T>>): seq<T>
    decreases |xss|
  {
    if |xss| == 0 then [] else Flatten(xss[..|xss| - 1]) + xss[|xss| - 1]
  }

  lemma {:induction false} FlattenMembers<T>(xss: seq<seq<T>>, x: T)
    ensures x in Flatten(xss) <==> exists i :: 0 <= i < |xss| && x in xss[i]
    decreases |xss|
  {
    if |xss| > 0 {
      var k := |xss| - 1;
      var init := xss[..k];
      FlattenMembers(init, x);
      assert x in Flatten(xss) <==> x in Flatten(init) || x in xss[k];
      if x in Flatten(init) {
        var i :| 0 <= i < |init| && x in init[i];
        assert xss[i] == init[i];
      }
      if exists i :: 0 <= i < |xss| && x in xss[i] {
        var i :| 0 <= i < |xss| && x in xss[i];
        if i < k {
          assert xss[i] == init[i];
        }
      }
    }
  }

  /** The group names of each spec of a repository. */
  function SpecNames(specs: seq<string>): (names: seq<seq<string>>)
    ensures |names| == |specs|
    ensures forall i :: 0 <= i < |specs| ==> names[i] == GroupNames(specs[i])
  {
    seq(|specs|, i requires 0 <= i < |specs| => GroupNames(specs[i]))
  }

  /** The group names of all specs of a repository, spec after spec:
      `groups.extend(...)` over the repository's specs. */
  function SpecGroups(specs: seq<string>): seq<string> {
    Flatten(SpecNames(specs))
  }

  /** The groups a repository draws labels from: those its specs name, then the global
      group "". */
  function RepoGroups(specs: seq<string>): (gs: seq<string>)
    ensures |gs| >= 1 && gs[|gs| - 1] == ""
  {
    SpecGroups(specs) + [""]
  }

  /** A name is one of a repository's groups exactly when it is the global group or one of
      its specs names it. */
  lemma RepoGroupsMembers(specs: seq<string>, g: string)
    ensures g in RepoGroups(specs) <==>
      g == "" || exists i :: 0 <= i < |specs| && g in GroupNames(specs[i])
  {
    var names := SpecNames(specs);
    FlattenMembers(names, g);
    assert g in RepoGroups(specs) <==> g in Flatten(names) || g == "";
    if exists i :: 0 <= i < |specs| && g in GroupNames(specs[i]) {
      var i :| 0 <= i < |specs| && g in GroupNames(specs[i]);
      assert g in names[i];
    }
  }

  /** The colour as the repository gets it: `color.replace("#", "")`. */
  function PlainColor(color: string): (c: string)
    ensures c == Without(color, '#')
    ensures '#' !in c
  {
    ReplaceAllDeletesChar(color, '#');
    ReplaceAll(color, "#", "")
  }

  /** The label entries of one category, in the category's order. */
  function CategoryEntries(c: Category): (es: seq<(string, LabelSpec)>)
    ensures |es| == |c.labels|
    ensures forall i :: 0 <= i < |es| ==>
      es[i] == (c.labels[i].0, LabelSpec(Without(c.color, '#'), c.labels[i].1))
    ensures forall k :: HasKey(es, k) <==> HasKey(c.labels, k)
    ensures forall i :: 0 <= i < |es| ==> '#' !in es[i].1.color
  {
    var es := seq(|c.labels|, i requires 0 <= i < |c.labels| =>
      (c.labels[i].0, LabelSpec(PlainColor(c.color), c.labels[i].1)));
    forall k | HasKey(c.labels, k) ensures HasKey(es, k) {
      var i :| 0 <= i < |c.labels| && c.labels[i].0 == k;
      assert es[i].0 == k;
    }
    es
  }

  /** The label entries of a group: its categories' entries, category after category. */
  function GroupEntries(cats: Dict<string, Category>): (es: seq<(string, LabelSpec)>)
    ensures forall i :: 0 <= i < |es| ==> '#' !in es[i].1.color
    decreases |cats|
  {
    if |cats| == 0 then []
    else GroupEntries(cats[..|cats| - 1]) + CategoryEntries(cats[|cats| - 1].1)
  }

  /** The label entries of a sequence of groups; a group the file does not define adds
      nothing. */
  function Entries(groups: seq<string>, defs: map<string, Dict<string, Category>>): (es: seq<(string, LabelSpec)>)
    ensures forall i :: 0 <= i < |es| ==> '#' !in es[i].1.color
    decreases |groups|
  {
    if |groups| == 0 then []
    else
      var g := groups[|groups| - 1];
      if g in defs then Entries(groups[..|groups| - 1], defs) + GroupEntries(defs[g])
      else Entries(groups[..|groups| - 1], defs)
  }

  /** Group `g` is in the file and lists label `name`. */
  predicate Defines(defs: map<string, Dict<string, Category>>, g: string, name: string) {
    g in defs && HasKey(GroupEntries(defs[g]), name)
  }

  /** The labels a repository should carry, keyed by name in first-definition order, each
      with the colour and description of its last definition; the repository must be
      listed in the file. */
  function ResolveLabels(config: Config, repo: string): (r: Result<Dict<string, LabelSpec>, string>)
    ensures r.Failure? <==> repo !in config.repositories
    ensures r.Success? ==> DistinctKeys(r.value)
    ensures r.Success? ==> forall i :: 0 <= i < |r.value| ==> '#' !in r.value[i].1.color
  {
    if repo !in config.repositories then
      Failure("Repository " + repo + " not found in configuration")
    else
      var es := Entries(RepoGroups(config.repositories[repo]), config.labels);
      var d := PutAll([], es);
      assert forall i :: 0 <= i < |d| ==> d[i] in es;
      Success(d)
  }

  lemma {:induction false} GroupEntriesKeys(cats: Dict<string, Category>, name: string)
    ensures HasKey(GroupEntries(cats), name) <==>
      exists i :: 0 <= i < |cats| && HasKey(cats[i].1.labels, name)
    decreases |cats|
  {
    if |cats| > 0 {
      var init := cats[..|cats| - 1];
      GroupEntriesKeys(init, name);
      HasKeyConcat(GroupEntries(init), CategoryEntries(cats[|cats| - 1].1), name);
      if exists i :: 0 <= i < |init| && HasKey(init[i].1.labels, name) {
        var i :| 0 <= i < |init| && HasKey(init[i].1.labels, name);
        assert cats[i] == init[i];
      }
      if exists i :: 0 <= i < |cats| && HasKey(cats[i].1.labels, name) {
        var i :| 0 <= i < |cats| && HasKey(cats[i].1.labels, name);
        if i < |init| {
          assert cats[i] == init[i];
        }
      }
    }
  }

  lemma {:induction false} EntriesKeys(groups: seq<string>, defs: map<string, Dict<string, Category>>, name: string)
    ensures HasKey(Entries(groups, defs), name) <==>
      exists j :: 0 <= j < |groups| && Defines(defs, groups[j], name)
    decreases |groups|
  {
    if |groups| > 0 {
      var init := groups[..|groups| - 1];
      var g := groups[|groups| - 1];
      EntriesKeys(init, defs, name);
      if g in defs {
        HasKeyConcat(Entries(init, defs), GroupEntries(defs[g]), name);
      }
      if exists j :: 0 <= j < |init| && Defines(defs, init[j], name) {
        var j :| 0 <= j < |init| && Defines(defs, init[j], name);
        assert groups[j] == init[j];
      }
      if exists j :: 0 <= j < |groups| && Defines(defs, groups[j], name) {
        var j :| 0 <= j < |groups| && Defines(defs, groups[j], name);
        if j < |init| {
          assert groups[j] == init[j];
        }
      }
    }
  }

  /** A label is resolved for a listed repository exactly when one of the repository's
      groups (its named groups or the global one) is in the file and lists it in one of
      its categories. */
  lemma ResolvedLabelsDefined(config: Config, repo: string, name: string)
    requires repo in config.repositories
    ensures HasKey(ResolveLabels(config, repo).value, name) <==>
      exists g :: g in RepoGroups(config.repositories[repo]) && g in config.labels &&
        exists i :: 0 <= i < |config.labels[g]| && HasKey(config.labels[g][i].1.labels, name)
  {
    var groups := RepoGroups(config.repositories[repo]);
    var es := Entries(groups, config.labels);
    EntriesKeys(groups, config.labels, name);
    assert HasKey(ResolveLabels(config, repo).value, name) <==> HasKey(es, name);
    if HasKey(es, name) {
      var j :| 0 <= j < |groups| && Defines(config.labels, groups[j], name);
      GroupEntriesKeys(config.labels[groups[j]], name);
      assert groups[j] in groups;
    }
    forall g | g in groups && g in config.labels &&
        exists i :: 0 <= i < |config.labels[g]| && HasKey(config.labels[g][i].1.labels, name)
      ensures HasKey(es, name)
    {
      GroupListsLabel(groups, config.labels, g, name);
    }
  }

  /** A label that a category of one of the groups lists is among the groups' entries. */
  lemma GroupListsLabel(groups: seq<string>, defs: map<string, Dict<string, Category>>, g: string, name: string)
    requires g in groups && g in defs
    requires exists i :: 0 <= i < |defs[g]| && HasKey(defs[g][i].1.labels, name)
    ensures HasKey(Entries(groups, defs), name)
  {
    GroupEntriesKeys(defs[g], name);
    EntriesKeys(groups, defs, name);
    var j :| 0 <= j < |groups| && groups[j] == g;
    assert Defines(defs, groups[j], name);
  }

  /** The global group has the last word: a label it defines takes the colour and
      description of its last definition there, whatever the repository's own groups say. */
  lemma GlobalGroupWins(config: Config, repo: string, name: string)
    requires repo in config.repositories
    requires Defines(config.labels, "", name)
    ensures HasKey(ResolveLabels(config, repo).value, name)
    ensures Get(ResolveLabels(config, repo).value, name) == LastValue(GroupEntries(config.labels[""]), name)
  {
    var specs := config.repositories[repo];
    var global := GroupEntries(config.labels[""]);
    var groups := RepoGroups(specs);
    assert groups[..|groups| - 1] == SpecGroups(specs);
    var es := Entries(groups, config.labels);
    assert es == Entries(SpecGroups(specs), config.labels) + global;
    LastValueAppend(Entries(SpecGroups(specs), config.labels), global, name);
    PutAllLastWins([], es, name);
  }

  /** A resolved label carries the colour (without `#`) and description of its last
      definition, however many groups and categories define it. */
  lemma ResolvedFromLastDefinition(config: Config, repo: string, name: string)
    requires repo in config.repositories
    requires HasKey(Entries(RepoGroups(config.repositories[repo]), config.labels), name)
    ensures HasKey(ResolveLabels(config, repo).value, name)
    ensures Get(ResolveLabels(config, repo).value, name) ==
      LastValue(Entries(RepoGroups(config.repositories[repo]), config.labels), name)
  {
    PutAllLastWins([], Entries(RepoGroups(config.repositories[repo]), config.labels), name);
  }
}
