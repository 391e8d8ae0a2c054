/** Milestone synchronisation between two repositories (`get_milestones`,
    `create_milestone`, `update_milestone`, `sync_milestones` and the mode choice of `main`
    in manual_scripts/sync_labels_milestones.py). */
module MilestoneSync {
  import opened Wrappers
  import opened Json

  /** A milestone as the milestones API reports it. */
  datatype RemoteMilestone = RemoteMilestone(number: int, title: string, description: Field, dueOn: Field)

  // ---------------------------------------------------------------- listing order

  predicate SortedByNumber(ms: seq<RemoteMilestone>) {
    forall i, j :: 0 <= i < j < |ms| ==> ms[i].number <= ms[j].number
  }

  /** `m` placed after every milestone whose number is not larger. */
  function Insert(m: RemoteMilestone, s: seq<RemoteMilestone>): (r: seq<RemoteMilestone>)
    requires SortedByNumber(s)
    ensures |r| == |s| + 1
    ensures forall x :: x in r <==> x == m || x in s
    ensures SortedByNumber(r)
    decreases |s|
  {
    if |s| == 0 then [m]
    else if m.number < s[0].number then [m] + s
    else
      var rest := Insert(m, s[1..]);
      assert s == [s[0]] + s[1..];
      assert forall k :: 0 <= k < |rest| ==> s[0].number <= rest[k].number by {
        forall k | 0 <= k < |rest| ensures s[0].number <= rest[k].number {
          assert rest[k] in rest;
        }
      }
      [s[0]] + rest
  }

  /** `milestones.sort(key=lambda m: m["number"])`: the same milestones, ordered by
      number. */
  function SortByNumber(ms: seq<RemoteMilestone>): (r: seq<RemoteMilestone>)
    ensures |r| == |ms|
    ensures forall x :: x in r <==> x in ms
    ensures SortedByNumber(r)
    decreases |ms|
  {
    if |ms| == 0 then []
    else
      var init := ms[..|ms| - 1];
      assert ms == init + [ms[|ms| - 1]];
      Insert(ms[|ms| - 1], SortByNumber(init))
  }

  /** Inserting adds exactly one copy of `m`. */
  lemma {:induction false} InsertPermutes(m: RemoteMilestone, s: seq<RemoteMilestone>)
    requires SortedByNumber(s)
    ensures multiset(Insert(m, s)) == multiset(s) + multiset{m}
    decreases |s|
  {
    if |s| > 0 && m.number >= s[0].number {
      var rest := Insert(m, s[1..]);
      InsertPermutes(m, s[1..]);
      calc {
        multiset(Insert(m, s));
        multiset([s[0]] + rest);
        multiset{s[0]} + multiset(rest);
        multiset{s[0]} + multiset(s[1..]) + multiset{m};
        { assert s == [s[0]] + s[1..]; }
        multiset(s) + multiset{m};
      }
    }
  }

  /** Sorting is a permutation: every milestone keeps its number of copies. */
  lemma {:induction false} SortPermutes(ms: seq<RemoteMilestone>)
    ensures multiset(SortByNumber(ms)) == multiset(ms)
    decreases |ms|
  {
    if |ms| > 0 {
      var init := ms[..|ms| - 1];
      SortPermutes(init);
      InsertPermutes(ms[|ms| - 1], SortByNumber(init));
      assert ms == init + [ms[|ms| - 1]];
    }
  }

  /** `{m["number"]: m for m in milestones}`: the later of two milestones with the same
      number wins. */
  function ByNumber(ms: seq<RemoteMilestone>): (r: map<int, RemoteMilestone>)
    ensures forall n :: n in r <==> exists i :: 0 <= i < |ms| && ms[i].number == n
    ensures forall n :: n in r ==> r[n].number == n && r[n] in ms
    decreases |ms|
  {
    if |ms| == 0 then map[]
    else
      var init := ms[..|ms| - 1];
      assert forall i :: 0 <= i < |init| ==> init[i] == ms[i];
      ByNumber(init)[ms[|ms| - 1].number := ms[|ms| - 1]]
  }

  // ---------------------------------------------------------------- planning

  /** `if ceiling and number > ceiling`: a ceiling of `None` or 0 skips nothing. */
  function AboveCeiling(ceiling: Option<int>, number: int): (b: bool)
    ensures ceiling.None? || ceiling == Some(0) ==> !b
    ensures b ==> number > ceiling.value
    ensures ceiling.Some? && ceiling.value != 0 && number > ceiling.value ==> b
  {
    ceiling.Some? && ceiling.value != 0 && number > ceiling.value
  }

  /** The step for one source milestone. */
  datatype MilestoneAction =
    | SkipAboveCeiling(number: int)
    | MilestoneUpToDate(number: int)
    | UpdateMilestone(number: int, title: string, description: Option<string>, dueOn: Option<string>)
    | CreateMilestone(number: int, title: string, description: Option<string>, dueOn: Option<string>)

  /** The target milestone already carries the source's title, `description` and `due_on`
      as `sync_milestones` compares them. */
  function SameAsSource(target: RemoteMilestone, source: RemoteMilestone): (b: bool)
    ensures b ==> target.title == source.title && Get(target.dueOn) == Get(source.dueOn)
    ensures b ==> GetDefault(target.description, "") == GetDefault(source.description, "")
    ensures target == source ==> b
    ensures (target.description.Absent? && source.description == Str("") &&
             target.title == source.title && Get(target.dueOn) == Get(source.dueOn)) ==> b
    ensures target.description.Null? && source.description == Str("") ==> !b
    ensures (target.title == source.title && target.description == source.description &&
             Get(target.dueOn) == Get(source.dueOn)) ==> b
    ensures (source.description.Absent? && target.description == Str("") &&
             target.title == source.title && Get(target.dueOn) == Get(source.dueOn)) ==> b
  {
    && target.title == source.title
    && GetDefault(target.description, "") == GetDefault(source.description, "")
    && Get(target.dueOn) == Get(source.dueOn)
  }

  /** One iteration of `sync_milestones`: skip above the ceiling; otherwise update a
      milestone with the same number that differs, leave one that does not, and create a
      missing one. */
  function MilestoneStep(source: RemoteMilestone, target: map<int, RemoteMilestone>, ceiling: Option<int>): (a: MilestoneAction)
    ensures a.number == source.number
    ensures a.SkipAboveCeiling? <==> AboveCeiling(ceiling, source.number)
    ensures !a.SkipAboveCeiling? ==>
      (a.MilestoneUpToDate? <==> source.number in target && SameAsSource(target[source.number], source))
    ensures !a.SkipAboveCeiling? ==> (a.CreateMilestone? <==> source.number !in target)
    ensures a.UpdateMilestone? || a.CreateMilestone? ==>
      a.title == source.title && a.description == GetDefault(source.description, "") && a.dueOn == Get(source.dueOn)
  {
    if AboveCeiling(ceiling, source.number) then SkipAboveCeiling(source.number)
    else
      var title := source.title;
      var description := GetDefault(source.description, "");
      var dueOn := Get(source.dueOn);
      if source.number in target then
        if SameAsSource(target[source.number], source) then MilestoneUpToDate(source.number)
        else UpdateMilestone(source.number, title, description, dueOn)
      else CreateMilestone(source.number, title, description, dueOn)
  }

  /** `sync_milestones`: one step per source milestone, in number order, each matched by
      number against the target's milestones. */
  function PlanMilestones(source: seq<RemoteMilestone>, target: seq<RemoteMilestone>, ceiling: Option<int>): (plan: seq<MilestoneAction>)
    ensures |plan| == |source|
    ensures forall i, j :: 0 <= i < j < |plan| ==> plan[i].number <= plan[j].number
  {
    var sorted := SortByNumber(source);
    var targets := ByNumber(SortByNumber(target));
    var plan := seq(|sorted|, i requires 0 <= i < |sorted| => MilestoneStep(sorted[i], targets, ceiling));
    assert forall i :: 0 <= i < |plan| ==> plan[i].number == sorted[i].number;
    plan
  }

  /** The plan holds the step of every source milestone and nothing else. */
  lemma PlanMilestonesSteps(source: seq<RemoteMilestone>, target: seq<RemoteMilestone>, ceiling: Option<int>)
    ensures var plan := PlanMilestones(source, target, ceiling);
      var targets := ByNumber(SortByNumber(target));
      && (forall m :: m in source ==> MilestoneStep(m, targets, ceiling) in plan)
      && (forall a :: a in plan ==> exists m :: m in source && a == MilestoneStep(m, targets, ceiling))
  {
    var sorted := SortByNumber(source);
    var targets := ByNumber(SortByNumber(target));
    var plan := PlanMilestones(source, target, ceiling);
    assert forall i :: 0 <= i < |plan| ==> plan[i] == MilestoneStep(sorted[i], targets, ceiling);
    forall m | m in source ensures MilestoneStep(m, targets, ceiling) in plan {
      var i :| 0 <= i < |sorted| && sorted[i] == m;
      assert plan[i] == MilestoneStep(m, targets, ceiling);
    }
    forall a | a in plan ensures exists m :: m in source && a == MilestoneStep(m, targets, ceiling) {
      var i :| 0 <= i < |plan| && plan[i] == a;
      assert sorted[i] in sorted;
    }
  }

  // ---------------------------------------------------------------- requests and their effect

  /** What a request body says about `due_on`: the key left out, or sent with a string or
      `null`. */
  datatype DueField = DueOmitted | DueSent(value: Option<string>)

  /** The JSON body of a create or update request. */
  datatype Payload = Payload(title: string, description: string, dueOn: DueField)

  /** The body `create_milestone` and `update_milestone` build: `description or ""`, and
      `due_on` only when it is a non-empty string. */
  function PayloadAsWritten(title: string, description: Option<string>, dueOn: Option<string>): (p: Payload)
    ensures p.title == title
    ensures p.description == OrEmpty(description)
    ensures p.dueOn.DueSent? <==> Truthy(dueOn)
    ensures p.dueOn.DueSent? ==> p.dueOn.value == dueOn
  {
    Payload(title, OrEmpty(description), if Truthy(dueOn) then DueSent(dueOn) else DueOmitted)
  }

  /** The update body that mirrors the due date in every case: a missing one is sent as
      `null`, which clears the target's. */
  function UpdatePayload(title: string, description: Option<string>, dueOn: Option<string>): (p: Payload)
    ensures p.title == title
    ensures p.description == OrEmpty(description)
    ensures p.dueOn == DueSent(dueOn)
  {
    Payload(title, OrEmpty(description), DueSent(dueOn))
  }

  /** What a PATCH of milestone `m` leaves: every sent key replaced, an omitted `due_on`
      unchanged. */
  function ApplyPatch(m: RemoteMilestone, p: Payload): (r: RemoteMilestone)
    ensures r.number == m.number && r.title == p.title && r.description == Str(p.description)
    ensures p.dueOn.DueOmitted? ==> r.dueOn == m.dueOn
    ensures p.dueOn.DueSent? ==> Get(r.dueOn) == p.dueOn.value
  {
    RemoteMilestone(m.number, p.title, Str(p.description),
      match p.dueOn
      case DueOmitted => m.dueOn
      case DueSent(v) => ToField(v))
  }

  /** The update body mirrors the source: once the target has been patched with it, the
      next run finds the milestone up to date (for a source whose description is not
      `null`, since an empty description is written back as ""). */
  lemma UpdateSettles(source: RemoteMilestone, target: RemoteMilestone, ceiling: Option<int>)
    requires target.number == source.number
    requires !source.description.Null?
    requires MilestoneStep(source, map[source.number := target], ceiling).UpdateMilestone?
    ensures var a := MilestoneStep(source, map[source.number := target], ceiling);
      var patched := ApplyPatch(target, UpdatePayload(a.title, a.description, a.dueOn));
      MilestoneStep(source, map[source.number := patched], ceiling).MilestoneUpToDate?
  {
    var a := MilestoneStep(source, map[source.number := target], ceiling);
    var patched := ApplyPatch(target, UpdatePayload(a.title, a.description, a.dueOn));
    assert SameAsSource(patched, source);
  }

  /** The body as written cannot clear a due date: a source milestone without one (the
      key missing or `null`) and a target milestone with one differ before the update and
      still differ after it, so every run updates the milestone again. */
  lemma AsWrittenKeepsStaleDueDate(source: RemoteMilestone, target: RemoteMilestone, ceiling: Option<int>)
    requires target.number == source.number && !AboveCeiling(ceiling, source.number)
    requires Get(source.dueOn).None? && Get(target.dueOn).Some?
    ensures var a := MilestoneStep(source, map[source.number := target], ceiling);
      var patched := ApplyPatch(target, PayloadAsWritten(a.title, a.description, a.dueOn));
      && a.UpdateMilestone?
      && patched.dueOn == target.dueOn
      && MilestoneStep(source, map[source.number := patched], ceiling).UpdateMilestone?
  {
    assert !SameAsSource(target, source);
    var a := MilestoneStep(source, map[source.number := target], ceiling);
    var patched := ApplyPatch(target, PayloadAsWritten(a.title, a.description, a.dueOn));
    assert !SameAsSource(patched, source);
  }

  // ---------------------------------------------------------------- mode selection

  /** What one run of `main` synchronises. */
  datatype Mode = LabelsOnly | MilestonesOnly | Everything

  predicate SyncsLabels(m: Mode) { m != MilestonesOnly }
  predicate SyncsMilestones(m: Mode) { m != LabelsOnly }

  /** `--labels-only` and `--milestones-only` exclude each other; with neither, labels and
      then milestones are synchronised. */
  function SelectMode(labelsOnly: bool, milestonesOnly: bool): (r: Result<Mode, string>)
    ensures r.Failure? <==> labelsOnly && milestonesOnly
    ensures r.Success? ==> (SyncsLabels(r.value) <==> !milestonesOnly)
    ensures r.Success? ==> (SyncsMilestones(r.value) <==> !labelsOnly)
  {
    if labelsOnly && milestonesOnly then Failure("Cannot specify both --labels-only and --milestones-only")
    else if labelsOnly then Success(LabelsOnly)
    else if milestonesOnly then Success(MilestonesOnly)
    else Success(Everything)
  }
}
