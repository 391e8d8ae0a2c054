/** Label synchronisation: bringing a repository's labels in line with the configuration
    file (`sync_labels_from_json` in manual_scripts/labels.py) or with another repository
    (`sync_labels` in manual_scripts/sync_labels_milestones.py). Both are modelled as a
    plan of actions computed from listings, and an effect model of the repository that
    the actions change. */
module LabelSync {
  import opened Wrappers
  import opened Json
  import opened Dicts
  import opened LabelConfig

  /** A label as `gh label list --json name,color,description` reports it; `None` is a
      missing description key. */
  datatype RemoteLabel = RemoteLabel(name: string, color: string, description: Option<string>)

  /** What a repository holds for one label. */
  datatype LabelState = LabelState(color: string, description: string)

  /** A repository's labels by name. */
  type Repository = map<string, LabelState>

  /** A listed label as the scripts compare it: `existing.get("description", "")`. */
  function StateOf(l: RemoteLabel): LabelState {
    LabelState(l.color, l.description.GetOr(""))
  }

  /** `{label["name"]: label for label in labels}`: the later of two entries with the same
      name wins. */
  function Listed(labels: seq<RemoteLabel>): (r: Repository)
    ensures forall n :: n in r <==> exists i :: 0 <= i < |labels| && labels[i].name == n
    decreases |labels|
  {
    if |labels| == 0 then map[]
    else
      var init := labels[..|labels| - 1];
      var l := labels[|labels| - 1];
      var r := Listed(init)[l.name := StateOf(l)];
      assert forall i :: 0 <= i < |init| ==> init[i] == labels[i];
      r
  }

  /** With distinct names, each listed label is what the repository holds under its name. */
  lemma {:induction false} ListedAt(labels: seq<RemoteLabel>, i: int)
    requires 0 <= i < |labels|
    requires forall j, k :: 0 <= j < k < |labels| ==> labels[j].name != labels[k].name
    ensures labels[i].name in Listed(labels) && Listed(labels)[labels[i].name] == StateOf(labels[i])
    decreases |labels|
  {
    if i < |labels| - 1 {
      var init := labels[..|labels| - 1];
      assert init[i] == labels[i];
      ListedAt(init, i);
    }
  }

  /** One step of a plan. */
  datatype LabelAction =
    | KeepLabel(name: string)
    | CreateLabel(name: string, color: string, description: Option<string>)
    | EditLabel(name: string, color: string, description: Option<string>)
    | DeleteLabel(name: string)

  /** The `gh` arguments an action runs: `label create … --force` passes a description
      only when it is not empty, `label edit` whenever there is one, and a label already up
      to date runs nothing. */
  function Command(repo: string, a: LabelAction): (args: Option<seq<string>>)
    ensures args.None? <==> a.KeepLabel?
    ensures a.CreateLabel? ==> |args.value| == if Truthy(a.description) then 10 else 8
    ensures a.EditLabel? ==> |args.value| == if a.description.Some? then 9 else 7
    ensures (a.CreateLabel? || a.EditLabel?) && |args.value| in {9, 10} ==>
      args.value[|args.value| - 2] == "--description" && args.value[|args.value| - 1] == a.description.value
    ensures args.Some? ==>
      |args.value| >= 6 && args.value[0] == "label" && args.value[2] == a.name && args.value[3..5] == ["--repo", repo]
    ensures a.CreateLabel? ==>
      args.value[..8] == ["label", "create", a.name, "--repo", repo, "--color", a.color, "--force"]
    ensures a.EditLabel? ==>
      args.value[..7] == ["label", "edit", a.name, "--repo", repo, "--color", a.color]
    ensures a.DeleteLabel? ==> args.value == ["label", "delete", a.name, "--repo", repo, "--yes"]
  {
    match a
    case KeepLabel(_) => None
    case CreateLabel(n, c, d) =>
      Some(["label", "create", n, "--repo", repo, "--color", c, "--force"]
           + (if Truthy(d) then ["--description", d.value] else []))
    case EditLabel(n, c, d) =>
      Some(["label", "edit", n, "--repo", repo, "--color", c]
           + (if d.Some? then ["--description", d.value] else []))
    case DeleteLabel(n) => Some(["label", "delete", n, "--repo", repo, "--yes"])
  }

  /** What an action does to the label it names, given what the repository held for that
      label (`None` for no label). Creating with `--force` on an existing label and editing
      send the same update: it sets the colour, and the description only when a non-empty
      one is passed, so an empty `--description` keeps the old one. Editing a missing label
      fails and changes nothing. */
  function Effect(p: Option<LabelState>, a: LabelAction): Option<LabelState> {
    match a
    case KeepLabel(_) => p
    case CreateLabel(_, c, d) =>
      Some(LabelState(c, if Truthy(d) then d.value else if p.Some? then p.value.description else ""))
    case EditLabel(_, c, d) =>
      if p.None? then None
      else Some(LabelState(c, if Truthy(d) then d.value else p.value.description))
    case DeleteLabel(_) => None
  }

  /** Two actions that run the same command have the same effect: the effect model
      depends only on what is passed to `gh`. */
  lemma CommandDeterminesEffect(repo: string, a: LabelAction, b: LabelAction, p: Option<LabelState>)
    requires Command(repo, a) == Command(repo, b) && a.name == b.name
    ensures Effect(p, a) == Effect(p, b)
  {
    if a.CreateLabel? || a.EditLabel? {
      assert Command(repo, a).value[1] == Command(repo, b).value[1];
      assert Command(repo, a).value[6] == Command(repo, b).value[6];
    }
  }

  /** What the repository holds for label `n`. */
  function Project(s: Repository, n: string): Option<LabelState> {
    if n in s then Some(s[n]) else None
  }

  /** The repository after one action; only the label it names changes. */
  function Apply(s: Repository, a: LabelAction): (r: Repository)
    ensures Project(r, a.name) == Effect(Project(s, a.name), a)
    ensures forall n :: n != a.name ==> Project(r, n) == Project(s, n)
  {
    match Effect(Project(s, a.name), a)
    case None => s - {a.name}
    case Some(v) => s[a.name := v]
  }

  /** The repository after every action of a plan, in order, each one succeeding. */
  function ApplyAll(s: Repository, plan: seq<LabelAction>): Repository
    decreases |plan|
  {
    if |plan| == 0 then s else ApplyAll(Apply(s, plan[0]), plan[1..])
  }

  /** The effect of a plan on one label alone: the actions naming it, in order. */
  function EffectAll(p: Option<LabelState>, plan: seq<LabelAction>, n: string): Option<LabelState>
    decreases |plan|
  {
    if |plan| == 0 then p
    else EffectAll(if plan[0].name == n then Effect(p, plan[0]) else p, plan[1..], n)
  }

  /** Each label ends as the actions naming it leave it, whatever the plan does to others. */
  lemma {:induction false} ProjectApplyAll(s: Repository, plan: seq<LabelAction>, n: string)
    ensures Project(ApplyAll(s, plan), n) == EffectAll(Project(s, n), plan, n)
    decreases |plan|
  {
    if |plan| > 0 {
      ProjectApplyAll(Apply(s, plan[0]), plan[1..], n);
    }
  }

  lemma {:induction false} EffectAllConcat(p: Option<LabelState>, a: seq<LabelAction>, b: seq<LabelAction>, n: string)
    ensures EffectAll(p, a + b, n) == EffectAll(EffectAll(p, a, n), b, n)
    decreases |a|
  {
    if |a| == 0 {
      assert a + b == b;
    } else {
      assert (a + b)[1..] == a[1..] + b;
      EffectAllConcat(if a[0].name == n then Effect(p, a[0]) else p, a[1..], b, n);
    }
  }

  lemma {:induction false} EffectAllUntouched(p: Option<LabelState>, plan: seq<LabelAction>, n: string)
    requires forall i :: 0 <= i < |plan| ==> plan[i].name != n
    ensures EffectAll(p, plan, n) == p
    decreases |plan|
  {
    if |plan| > 0 {
      EffectAllUntouched(p, plan[1..], n);
    }
  }

  /** A label named by one action of a plan ends as that action leaves it. */
  lemma EffectAllSingle(p: Option<LabelState>, plan: seq<LabelAction>, n: string, i: int)
    requires 0 <= i < |plan| && plan[i].name == n
    requires forall j :: 0 <= j < |plan| && j != i ==> plan[j].name != n
    ensures EffectAll(p, plan, n) == Effect(p, plan[i])
  {
    var pre, post := plan[..i], plan[i + 1..];
    assert plan == pre + ([plan[i]] + post);
    EffectAllUntouched(p, pre, n);
    EffectAllConcat(p, pre, [plan[i]] + post, n);
    EffectAllConcat(p, [plan[i]], post, n);
    EffectAllUntouched(Effect(p, plan[i]), post, n);
  }

  /** A label that only deletions name, at least one of them, ends deleted. */
  lemma {:induction false} EffectAllDeleted(p: Option<LabelState>, plan: seq<LabelAction>, n: string)
    requires forall i :: 0 <= i < |plan| && plan[i].name == n ==> plan[i].DeleteLabel?
    requires exists i :: 0 <= i < |plan| && plan[i].name == n
    ensures EffectAll(p, plan, n) == None
    decreases |plan|
  {
    if plan[0].name == n {
      EffectAllDeletedFrom(plan[1..], n);
    } else {
      var i :| 0 <= i < |plan| && plan[i].name == n;
      assert plan[1..][i - 1] == plan[i];
      EffectAllDeleted(p, plan[1..], n);
    }
  }

  lemma {:induction false} EffectAllDeletedFrom(plan: seq<LabelAction>, n: string)
    requires forall i :: 0 <= i < |plan| && plan[i].name == n ==> plan[i].DeleteLabel?
    ensures EffectAll(None, plan, n) == None
    decreases |plan|
  {
    if |plan| > 0 {
      EffectAllDeletedFrom(plan[1..], n);
    }
  }

  /** The label holds what the specification asks for: `color` and a description equal
      to the wanted one (a wanted `None` is never equal to a held string). */
  predicate UpToDate(st: LabelState, spec: LabelSpec) {
    st.color == spec.color && Some(st.description) == spec.description
  }

  /** The step for one wanted label: nothing when it is up to date, an edit when it exists
      with another colour or description, a creation when it is missing. */
  function Step(name: string, spec: LabelSpec, current: Repository): (a: LabelAction)
    ensures a.name == name
    ensures a.KeepLabel? <==> name in current && UpToDate(current[name], spec)
    ensures a.EditLabel? <==> name in current && !UpToDate(current[name], spec)
    ensures a.CreateLabel? <==> name !in current
    ensures !a.DeleteLabel?
    ensures a.CreateLabel? || a.EditLabel? ==> a.color == spec.color && a.description == spec.description
    ensures spec.description.None? ==> !a.KeepLabel?
  {
    if name in current then
      if UpToDate(current[name], spec) then KeepLabel(name)
      else EditLabel(name, spec.color, spec.description)
    else CreateLabel(name, spec.color, spec.description)
  }

  /** A step that succeeds leaves its label up to date, provided the wanted description is
      a string, and an empty one only where the label has no description to clear. */
  lemma StepSettles(name: string, spec: LabelSpec, current: Repository)
    requires spec.description.Some?
    requires Clearable(name, spec, current)
    ensures var e := Effect(Project(current, name), Step(name, spec, current));
      e.Some? && UpToDate(e.value, spec)
  {
  }

  /** An empty wanted description needs nothing cleared: the label is missing or already
      has no description. */
  predicate Clearable(name: string, spec: LabelSpec, current: Repository) {
    spec.description == Some("") && name in current ==> current[name].description == ""
  }

  /** A wanted empty description never clears an existing one: the label is edited, stays
      with its description, and the next run edits it again. */
  lemma EmptyDescriptionNotCleared(name: string, color: string, current: Repository)
    requires name in current && current[name].description != ""
    ensures var spec := LabelSpec(color, Some(""));
      var a := Step(name, spec, current);
      var after := Apply(current, a);
      a.EditLabel? && after[name].description == current[name].description &&
      Step(name, spec, after).EditLabel?
  {
  }

  /** The names of the wanted labels. */
  function Names(desired: Dict<string, LabelSpec>): (ns: set<string>)
    ensures forall n :: n in ns <==> HasKey(desired, n)
  {
    set i | 0 <= i < |desired| :: desired[i].0
  }

  /** A deletion for every listed label whose name is not kept, in listing order. */
  function Deletions(labels: seq<RemoteLabel>, keep: set<string>): (ds: seq<LabelAction>)
    ensures forall i :: 0 <= i < |ds| ==> ds[i].DeleteLabel? && ds[i].name !in keep
    decreases |labels|
  {
    if |labels| == 0 then []
    else
      var rest := Deletions(labels[1..], keep);
      if labels[0].name in keep then rest else [DeleteLabel(labels[0].name)] + rest
  }

  /** Every listed label whose name is not kept has its deletion. */
  lemma {:induction false} DeletionOf(labels: seq<RemoteLabel>, keep: set<string>, n: string) returns (j: int)
    requires n !in keep && exists i :: 0 <= i < |labels| && labels[i].name == n
    ensures 0 <= j < |Deletions(labels, keep)| && Deletions(labels, keep)[j].name == n
    decreases |labels|
  {
    var rest := Deletions(labels[1..], keep);
    if labels[0].name == n {
      j := 0;
    } else {
      var i :| 0 <= i < |labels| && labels[i].name == n;
      assert labels[1..][i - 1].name == n;
      var j' := DeletionOf(labels[1..], keep, n);
      j := |Deletions(labels, keep)| - |rest| + j';
      assert Deletions(labels, keep)[j] == rest[j'];
    }
  }

  /** The steps for the wanted labels, one per label in the configuration's order. */
  function ConfigSteps(desired: Dict<string, LabelSpec>, current: Repository): (steps: seq<LabelAction>)
    ensures |steps| == |desired|
    ensures forall i :: 0 <= i < |desired| ==> steps[i] == Step(desired[i].0, desired[i].1, current)
  {
    seq(|desired|, i requires 0 <= i < |desired| => Step(desired[i].0, desired[i].1, current))
  }

  /** `sync_labels_from_json`: a step per wanted label, then, only when asked to, a deletion
      for every listed label the configuration does not name. */
  function PlanConfigSync(desired: Dict<string, LabelSpec>, listing: seq<RemoteLabel>, deleteUnmanaged: bool): (plan: seq<LabelAction>)
    ensures |plan| >= |desired|
    ensures plan[..|desired|] == ConfigSteps(desired, Listed(listing))
    ensures !deleteUnmanaged ==> |plan| == |desired|
    ensures forall i :: |desired| <= i < |plan| ==> plan[i].DeleteLabel? && !HasKey(desired, plan[i].name)
  {
    var steps := ConfigSteps(desired, Listed(listing));
    var plan := steps + (if deleteUnmanaged then Deletions(listing, Names(desired)) else []);
    assert plan[..|desired|] == steps;
    plan
  }

  /** After a configuration sync in which every action succeeds, each wanted label is up to
      date; a label the configuration does not name is gone when unmanaged labels are
      deleted and untouched otherwise. Wanted descriptions must be strings: one that is
      `null` in the file is edited again on every run, and so is an empty one that meets a
      label with a description (`EmptyDescriptionNotCleared`). */
  lemma ConfigSyncConverges(desired: Dict<string, LabelSpec>, listing: seq<RemoteLabel>, deleteUnmanaged: bool, n: string)
    requires DistinctKeys(desired)
    requires forall i :: 0 <= i < |desired| ==> desired[i].1.description.Some?
    requires forall i :: 0 <= i < |desired| ==> Clearable(desired[i].0, desired[i].1, Listed(listing))
    ensures var after := ApplyAll(Listed(listing), PlanConfigSync(desired, listing, deleteUnmanaged));
      && (HasKey(desired, n) ==> n in after && UpToDate(after[n], Dicts.Get(desired, n)))
      && (!HasKey(desired, n) && deleteUnmanaged ==> n !in after)
      && (!HasKey(desired, n) && !deleteUnmanaged ==> Project(after, n) == Project(Listed(listing), n))
  {
    var current := Listed(listing);
    var steps := ConfigSteps(desired, current);
    var dels := if deleteUnmanaged then Deletions(listing, Names(desired)) else [];
    ProjectApplyAll(current, steps + dels, n);
    EffectAllConcat(Project(current, n), steps, dels, n);
    if HasKey(desired, n) {
      ConfigWantedLabel(desired, listing, deleteUnmanaged, n);
    } else {
      ConfigOtherLabel(desired, listing, deleteUnmanaged, n);
    }
  }

  /** A wanted label ends up to date. */
  lemma ConfigWantedLabel(desired: Dict<string, LabelSpec>, listing: seq<RemoteLabel>, deleteUnmanaged: bool, n: string)
    requires DistinctKeys(desired) && HasKey(desired, n)
    requires forall i :: 0 <= i < |desired| ==> desired[i].1.description.Some?
    requires forall i :: 0 <= i < |desired| ==> Clearable(desired[i].0, desired[i].1, Listed(listing))
    ensures var current := Listed(listing);
      var dels := if deleteUnmanaged then Deletions(listing, Names(desired)) else [];
      var e := EffectAll(EffectAll(Project(current, n), ConfigSteps(desired, current), n), dels, n);
      e.Some? && UpToDate(e.value, Dicts.Get(desired, n))
  {
    var current := Listed(listing);
    var steps := ConfigSteps(desired, current);
    var dels := if deleteUnmanaged then Deletions(listing, Names(desired)) else [];
    var i :| 0 <= i < |desired| && desired[i].0 == n;
    GetAt(desired, i);
    EffectAllSingle(Project(current, n), steps, n, i);
    StepSettles(n, desired[i].1, current);
    EffectAllUntouched(EffectAll(Project(current, n), steps, n), dels, n);
  }

  /** A label the configuration does not name is deleted when asked for, and untouched
      otherwise. */
  lemma ConfigOtherLabel(desired: Dict<string, LabelSpec>, listing: seq<RemoteLabel>, deleteUnmanaged: bool, n: string)
    requires !HasKey(desired, n)
    ensures var current := Listed(listing);
      var dels := if deleteUnmanaged then Deletions(listing, Names(desired)) else [];
      var e := EffectAll(EffectAll(Project(current, n), ConfigSteps(desired, current), n), dels, n);
      (deleteUnmanaged ==> e.None?) && (!deleteUnmanaged ==> e == Project(current, n))
  {
    var current := Listed(listing);
    var steps := ConfigSteps(desired, current);
    var dels := if deleteUnmanaged then Deletions(listing, Names(desired)) else [];
    EffectAllUntouched(Project(current, n), steps, n);
    if deleteUnmanaged && n in current {
      var j := DeletionOf(listing, Names(desired), n);
      assert dels[j].name == n;
      EffectAllDeleted(Project(current, n), dels, n);
    } else if deleteUnmanaged {
      EffectAllDeletedFrom(dels, n);
    } else {
      EffectAllUntouched(Project(current, n), dels, n);
    }
  }

  /** Running the configuration sync again on the repository it produced keeps every
      label: nothing is created or edited a second time. */
  lemma ConfigSyncIdempotent(desired: Dict<string, LabelSpec>, listing: seq<RemoteLabel>, deleteUnmanaged: bool)
    requires DistinctKeys(desired)
    requires forall i :: 0 <= i < |desired| ==> desired[i].1.description.Some?
    requires forall i :: 0 <= i < |desired| ==> Clearable(desired[i].0, desired[i].1, Listed(listing))
    ensures var after := ApplyAll(Listed(listing), PlanConfigSync(desired, listing, deleteUnmanaged));
      forall i :: 0 <= i < |desired| ==> ConfigSteps(desired, after)[i].KeepLabel?
  {
    var after := ApplyAll(Listed(listing), PlanConfigSync(desired, listing, deleteUnmanaged));
    forall i | 0 <= i < |desired| ensures ConfigSteps(desired, after)[i].KeepLabel? {
      ConfigSyncConverges(desired, listing, deleteUnmanaged, desired[i].0);
      GetAt(desired, i);
    }
  }

  /** A step `sync_labels_from_json` counts as applied: a label already up to date, or a
      creation or edit whose call succeeded. */
  predicate Applied(a: LabelAction, ok: LabelAction -> bool) {
    a.KeepLabel? || ok(a)
  }

  /** How many wanted labels `sync_labels_from_json` reports as applied: the number of
      positions whose step counts as applied. */
  function SuccessCount(steps: seq<LabelAction>, ok: LabelAction -> bool): (c: nat)
    ensures c == |set i | 0 <= i < |steps| && Applied(steps[i], ok)|
    ensures c <= |steps|
    ensures c == |steps| <==> forall i :: 0 <= i < |steps| ==> Applied(steps[i], ok)
    decreases |steps|
  {
    if |steps| == 0 then 0
    else
      var k := |steps| - 1;
      var init := steps[..k];
      var rest := SuccessCount(init, ok);
      var before := set i | 0 <= i < k && Applied(init[i], ok);
      var all := set i | 0 <= i < |steps| && Applied(steps[i], ok);
      assert forall i :: 0 <= i < k ==> init[i] == steps[i];
      if Applied(steps[k], ok) then
        assert all == before + {k};
        assert before * {k} == {};
        1 + rest
      else
        assert all == before;
        rest
  }

  /** The wanted specification of a source label in a mirror: its colour and
      `label.get("description", "")`. */
  function MirrorSpec(l: RemoteLabel): LabelSpec {
    LabelSpec(l.color, Some(l.description.GetOr("")))
  }

  /** The names a listing holds. */
  function ListedNames(labels: seq<RemoteLabel>): (ns: set<string>)
    ensures forall n :: n in ns <==> exists i :: 0 <= i < |labels| && labels[i].name == n
  {
    Listed(labels).Keys
  }

  /** The steps of a mirror, one per source label in the source's order. */
  function MirrorSteps(source: seq<RemoteLabel>, current: Repository): (steps: seq<LabelAction>)
    ensures |steps| == |source|
    ensures forall i :: 0 <= i < |source| ==> !steps[i].DeleteLabel? && steps[i].name == source[i].name
    decreases |source|
  {
    if |source| == 0 then []
    else
      var rest := MirrorSteps(source[1..], current);
      assert forall i :: 1 <= i < |source| ==> source[1..][i - 1] == source[i];
      [Step(source[0].name, MirrorSpec(source[0]), current)] + rest
  }

  /** Step i of a mirror is the step for source label i. */
  lemma {:induction false} MirrorStepAt(source: seq<RemoteLabel>, current: Repository, i: int)
    requires 0 <= i < |source|
    ensures MirrorSteps(source, current)[i] == Step(source[i].name, MirrorSpec(source[i]), current)
    decreases |source|
  {
    if i > 0 {
      MirrorStepAt(source[1..], current, i - 1);
    }
  }

  /** `sync_labels`: first a deletion for every target label the source lacks, then a step
      per source label in the source's order. */
  function PlanMirror(source: seq<RemoteLabel>, target: seq<RemoteLabel>): (plan: seq<LabelAction>)
    ensures |plan| >= |source|
    ensures forall i :: 0 <= i < |plan| - |source| ==>
      plan[i].DeleteLabel? && plan[i].name !in ListedNames(source)
  {
    Deletions(target, ListedNames(source)) + MirrorSteps(source, Listed(target))
  }

  /** After the deletions comes one non-deleting step per source label, in the source's
      order. */
  lemma MirrorStepsFollow(source: seq<RemoteLabel>, target: seq<RemoteLabel>, i: int)
    requires 0 <= i < |source|
    ensures var plan := PlanMirror(source, target);
      !plan[|plan| - |source| + i].DeleteLabel? && plan[|plan| - |source| + i].name == source[i].name
  {
    var dels := Deletions(target, ListedNames(source));
    var steps := MirrorSteps(source, Listed(target));
    AppendedAt(dels, steps, i);
  }

  /** Element i of the second part of a concatenation. */
  lemma AppendedAt<T>(a: seq<T>, b: seq<T>, i: int)
    requires 0 <= i < |b|
    ensures |a + b| - |b| + i == |a| + i && (a + b)[|a| + i] == b[i]
  {
  }

  /** Every target label the source lacks is deleted, among the deletions that precede the
      other steps. */
  lemma MirrorDeletesStale(source: seq<RemoteLabel>, target: seq<RemoteLabel>, n: string)
    requires n !in ListedNames(source) && n in Listed(target)
    ensures var plan := PlanMirror(source, target);
      exists i :: 0 <= i < |plan| - |source| && plan[i].DeleteLabel? && plan[i].name == n
  {
    var dels := Deletions(target, ListedNames(source));
    var steps := MirrorSteps(source, Listed(target));
    var j := DeletionOf(target, ListedNames(source), n);
    assert PlanMirror(source, target)[j] == dels[j];
  }

  /** Two repositories that hold the same for every label are equal. */
  lemma RepositoryExt(a: Repository, b: Repository)
    requires forall n :: Project(a, n) == Project(b, n)
    ensures a == b
  {
    forall n | n in a ensures n in b && a[n] == b[n] {
      assert Project(a, n) == Project(b, n);
    }
    forall n | n in b ensures n in a {
      assert Project(a, n) == Project(b, n);
    }
  }

  /** A mirror in which every action succeeds leaves the target holding exactly the
      source's labels, colours and descriptions (source names are distinct, as they are in
      a repository, and a source label without a description has none in the target to
      clear). */
  lemma MirrorConverges(source: seq<RemoteLabel>, target: seq<RemoteLabel>)
    requires forall j, k :: 0 <= j < k < |source| ==> source[j].name != source[k].name
    requires forall i :: 0 <= i < |source| ==> Clearable(source[i].name, MirrorSpec(source[i]), Listed(target))
    ensures ApplyAll(Listed(target), PlanMirror(source, target)) == Listed(source)
  {
    var after := ApplyAll(Listed(target), PlanMirror(source, target));
    forall n ensures Project(after, n) == Project(Listed(source), n) {
      MirrorConvergesAt(source, target, n);
    }
    RepositoryExt(after, Listed(source));
  }

  lemma MirrorConvergesAt(source: seq<RemoteLabel>, target: seq<RemoteLabel>, n: string)
    requires forall j, k :: 0 <= j < k < |source| ==> source[j].name != source[k].name
    requires forall i :: 0 <= i < |source| ==> Clearable(source[i].name, MirrorSpec(source[i]), Listed(target))
    ensures Project(ApplyAll(Listed(target), PlanMirror(source, target)), n) == Project(Listed(source), n)
  {
    var current := Listed(target);
    var dels := Deletions(target, ListedNames(source));
    var steps := MirrorSteps(source, current);
    ProjectApplyAll(current, dels + steps, n);
    EffectAllConcat(Project(current, n), dels, steps, n);
    if n in ListedNames(source) {
      MirrorSourceLabel(source, target, n);
    } else {
      MirrorOtherLabel(source, target, n);
    }
  }

  /** A source label ends as the source holds it. */
  lemma MirrorSourceLabel(source: seq<RemoteLabel>, target: seq<RemoteLabel>, n: string)
    requires forall j, k :: 0 <= j < k < |source| ==> source[j].name != source[k].name
    requires forall i :: 0 <= i < |source| ==> Clearable(source[i].name, MirrorSpec(source[i]), Listed(target))
    requires n in ListedNames(source)
    ensures var current := Listed(target);
      EffectAll(EffectAll(Project(current, n), Deletions(target, ListedNames(source)), n), MirrorSteps(source, current), n)
        == Project(Listed(source), n)
  {
    var current := Listed(target);
    var dels := Deletions(target, ListedNames(source));
    var steps := MirrorSteps(source, current);
    var i :| 0 <= i < |source| && source[i].name == n;
    ListedAt(source, i);
    MirrorStepAt(source, current, i);
    EffectAllUntouched(Project(current, n), dels, n);
    EffectAllSingle(Project(current, n), steps, n, i);
    StepSettles(n, MirrorSpec(source[i]), current);
  }

  /** A label the source lacks ends deleted. */
  lemma MirrorOtherLabel(source: seq<RemoteLabel>, target: seq<RemoteLabel>, n: string)
    requires n !in ListedNames(source)
    ensures var current := Listed(target);
      EffectAll(EffectAll(Project(current, n), Deletions(target, ListedNames(source)), n), MirrorSteps(source, current), n)
        == Project(Listed(source), n)
  {
    var current := Listed(target);
    var dels := Deletions(target, ListedNames(source));
    var steps := MirrorSteps(source, current);
    if n in current {
      var j := DeletionOf(target, ListedNames(source), n);
      assert dels[j].name == n;
      EffectAllDeleted(Project(current, n), dels, n);
    } else {
      EffectAllDeletedFrom(dels, n);
    }
    EffectAllUntouched(None, steps, n);
  }
}
