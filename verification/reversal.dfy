/** Reversing the order of a repository's milestones (manual_scripts/reverse_milestones.py):
    milestone i takes over the title, state, description and due date of milestone n-1-i,
    through temporary titles so that no two milestones share a title on the way, and every
    issue follows its milestone's properties to their new number. */
module Reversal {
  import opened Wrappers
  import opened Json
  import opened Text

  // ---------------------------------------------------------------- reading listings

  /** `[line for line in output.strip().split("\n") if line]`. */
  function OutputLines(output: string): (ls: seq<string>)
    ensures forall i :: 0 <= i < |ls| ==> |ls[i]| > 0 && '\n' !in ls[i]
  {
    NonEmpty(Split(Strip(output, IsPythonSpace), '\n'))
  }

  /** The non-empty strings of `parts`, in order. */
  function NonEmpty(parts: seq<string>): (r: seq<string>)
    ensures forall i :: 0 <= i < |r| ==> |r[i]| > 0 && r[i] in parts
    ensures (forall i :: 0 <= i < |parts| ==> |parts[i]| > 0) ==>
      |r| == |parts| && forall i :: 0 <= i < |r| ==> r[i] == parts[i]
    decreases |parts|
  {
    if |parts| == 0 then []
    else
      var rest := NonEmpty(parts[1..]);
      assert forall i :: 0 <= i < |rest| ==> rest[i] in parts;
      if |parts[0]| > 0 then
        assert parts == [parts[0]] + parts[1..];
        [parts[0]] + rest
      else rest
  }

  /** Filtering keeps the order of the pieces: the non-empty strings of `a + b` are those
      of `a` followed by those of `b`. */
  lemma {:induction false} NonEmptyAppend(a: seq<string>, b: seq<string>)
    ensures NonEmpty(a + b) == NonEmpty(a) + NonEmpty(b)
    decreases |a|
  {
    if |a| == 0 {
      assert a + b == b;
    } else {
      var t := a[1..];
      assert a == [a[0]] + t;
      assert a + b == [a[0]] + (t + b);
      NonEmptyCons(a[0], t + b);
      NonEmptyCons(a[0], t);
      NonEmptyAppend(t, b);
      var h := if |a[0]| > 0 then [a[0]] else [];
      ConcatAssoc(h, NonEmpty(t), NonEmpty(b));
    }
  }

  /** Every non-empty string is kept. */
  lemma NonEmptyKeeps(parts: seq<string>, i: int)
    requires 0 <= i < |parts| && |parts[i]| > 0
    ensures parts[i] in NonEmpty(parts)
  {
    var before, after := parts[..i], parts[i + 1..];
    assert parts == before + ([parts[i]] + after);
    NonEmptyAppend(before, [parts[i]] + after);
    NonEmptyCons(parts[i], after);
    assert NonEmpty(parts) == NonEmpty(before) + ([parts[i]] + NonEmpty(after));
    assert NonEmpty(parts)[|NonEmpty(before)|] == parts[i];
  }

  lemma ConcatAssoc<T>(x: seq<T>, y: seq<T>, z: seq<T>)
    ensures x + (y + z) == (x + y) + z
  {
  }

  /** The first string is kept exactly when it is non-empty. */
  lemma NonEmptyCons(p: string, t: seq<string>)
    ensures NonEmpty([p] + t) == (if |p| > 0 then [p] else []) + NonEmpty(t)
  {
    assert ([p] + t)[1..] == t;
  }

  /** Lines written one per page or per object, with nothing blank around them, are read
      back exactly. */
  lemma OutputLinesOfJoin(ls: seq<string>)
    requires |ls| >= 1
    requires forall i :: 0 <= i < |ls| ==> |ls[i]| > 0 && '\n' !in ls[i]
    requires !IsPythonSpace(ls[0][0]) && !IsPythonSpace(ls[|ls| - 1][|ls[|ls| - 1]| - 1])
    ensures OutputLines(Join(ls, '\n')) == ls
  {
    JoinEdges(ls, '\n');
    StripUnpadded(Join(ls, '\n'), IsPythonSpace);
    SplitJoin(ls, '\n');
  }

  /** A milestone as the milestones listing reports it. */
  datatype ListedMilestone = ListedMilestone(number: int, title: string, state: string, description: Field, dueOn: Field)

  /** `get_milestones`: every line of the paginated output is one page, a JSON array, and
      the pages are concatenated in order. Decoding one page is a parameter. */
  function ListMilestones(output: string, decodePage: string -> seq<ListedMilestone>): (ms: seq<ListedMilestone>)
    ensures forall k :: 0 <= k < |ms| ==>
      exists i :: 0 <= i < |OutputLines(output)| && ms[k] in decodePage(OutputLines(output)[i])
  {
    Pages(OutputLines(output), decodePage)
  }

  /** The pages of `lines`, one after another. */
  function Pages(lines: seq<string>, decodePage: string -> seq<ListedMilestone>): (ms: seq<ListedMilestone>)
    ensures |lines| == 0 ==> ms == []
    ensures |lines| == 1 ==> ms == decodePage(lines[0])
    ensures forall k :: 0 <= k < |ms| ==> exists i :: 0 <= i < |lines| && ms[k] in decodePage(lines[i])
    decreases |lines|
  {
    if |lines| == 0 then []
    else
      var page := decodePage(lines[0]);
      var rest := Pages(lines[1..], decodePage);
      assert forall i :: 1 <= i < |lines| ==> lines[1..][i - 1] == lines[i];
      assert forall k :: |page| <= k < |page| + |rest| ==> (page + rest)[k] == rest[k - |page|];
      page + rest
  }

  /** Pages printed one per line are read back as those pages' milestones. */
  lemma ListMilestonesOfJoin(ls: seq<string>, decodePage: string -> seq<ListedMilestone>)
    requires |ls| >= 1
    requires forall i :: 0 <= i < |ls| ==> |ls[i]| > 0 && '\n' !in ls[i]
    requires !IsPythonSpace(ls[0][0]) && !IsPythonSpace(ls[|ls| - 1][|ls[|ls| - 1]| - 1])
    ensures ListMilestones(Join(ls, '\n'), decodePage) == Pages(ls, decodePage)
  {
    OutputLinesOfJoin(ls);
  }

  /** Pages are concatenated in the order of their lines. */
  lemma {:induction false} PagesAppend(a: seq<string>, b: seq<string>, decodePage: string -> seq<ListedMilestone>)
    ensures Pages(a + b, decodePage) == Pages(a, decodePage) + Pages(b, decodePage)
    decreases |a|
  {
    if |a| == 0 {
      assert a + b == b;
    } else {
      assert (a + b)[1..] == a[1..] + b;
      PagesAppend(a[1..], b, decodePage);
    }
  }

  /** An issue or pull request attached to a milestone. */
  datatype Issue = Issue(number: int, isPr: bool)

  /** One line of the issues listing, `{number, pull_request}`; the pull request link is
      `null` for a plain issue. */
  datatype IssueLine = IssueLine(number: int, pullRequest: Option<string>)

  /** `get_milestone_issues`: one issue per line of the output. Decoding one line is a
      parameter. */
  function ListIssues(output: string, decodeLine: string -> IssueLine): (issues: seq<Issue>)
    ensures var lines := OutputLines(output);
      && |issues| == |lines|
      && forall i :: 0 <= i < |issues| ==>
        issues[i].number == decodeLine(lines[i]).number &&
        (issues[i].isPr <==> decodeLine(lines[i]).pullRequest.Some?)
  {
    var lines := OutputLines(output);
    IssuesOf(lines, decodeLine)
  }

  /** Issues printed one per line are read back one per line. */
  lemma ListIssuesOfJoin(ls: seq<string>, decodeLine: string -> IssueLine)
    requires |ls| >= 1
    requires forall i :: 0 <= i < |ls| ==> |ls[i]| > 0 && '\n' !in ls[i]
    requires !IsPythonSpace(ls[0][0]) && !IsPythonSpace(ls[|ls| - 1][|ls[|ls| - 1]| - 1])
    ensures ListIssues(Join(ls, '\n'), decodeLine) == IssuesOf(ls, decodeLine)
  {
    OutputLinesOfJoin(ls);
  }

  /** One issue per line, a pull request exactly when its link is not `null`. */
  function IssuesOf(lines: seq<string>, decodeLine: string -> IssueLine): (issues: seq<Issue>)
    ensures |issues| == |lines|
    ensures forall i :: 0 <= i < |issues| ==>
      issues[i].number == decodeLine(lines[i]).number &&
      (issues[i].isPr <==> decodeLine(lines[i]).pullRequest.Some?)
  {
    seq(|lines|, i requires 0 <= i < |lines| =>
      Issue(decodeLine(lines[i]).number, decodeLine(lines[i]).pullRequest.Some?))
  }

  // ---------------------------------------------------------------- the plan

  /** What `main` keeps of a milestone: `m.get("description")` and `m.get("due_on")`. */
  datatype MilestoneData = MilestoneData(number: int, title: string, state: string, description: Option<string>, dueOn: Option<string>)

  function DataOf(m: ListedMilestone): MilestoneData {
    MilestoneData(m.number, m.title, m.state, Get(m.description), Get(m.dueOn))
  }

  /** `milestone_data[::-1]`. */
  function Reverse<T>(s: seq<T>): (r: seq<T>)
    ensures |r| == |s|
    ensures forall i {:trigger r[i]} :: 0 <= i < |s| ==> r[i] == s[|s| - 1 - i]
  {
    seq(|s|, i requires 0 <= i < |s| => s[|s| - 1 - i])
  }

  /** The temporary title of step one, `f"TEMP_{milestone_number}_{title}"`. */
  function TempTitle(number: int, title: string): (t: string)
    ensures |t| > 5 + |title| && t[..5] == "TEMP_" && t[|t| - |title|..] == title
  {
    "TEMP_" + IntText(number) + "_" + title
  }

  lemma TempTitleShape(number: int, title: string)
    ensures var k := |IntText(number)|;
      && |TempTitle(number, title)| == 6 + k + |title|
      && TempTitle(number, title)[5 + k] == '_'
      && (forall i :: 5 <= i < 5 + k ==> TempTitle(number, title)[i] != '_')
      && TempTitle(number, title)[5..5 + k] == IntText(number)
      && TempTitle(number, title)[6 + k..] == title
  {
  }

  /** A temporary title names its milestone and title unambiguously. */
  lemma TempTitleInjective(n1: int, t1: string, n2: int, t2: string)
    requires TempTitle(n1, t1) == TempTitle(n2, t2)
    ensures n1 == n2 && t1 == t2
  {
    TempTitleShape(n1, t1);
    TempTitleShape(n2, t2);
    IntTextInjective(n1, n2);
  }

  /** The body of step one: the temporary title, the state, the description with `None`
      sent as "", and the due date with `None` sent as `null`. */
  datatype TempPatch = TempPatch(title: string, state: string, description: string, dueOn: Option<string>)

  function TempPatchFor(number: int, props: MilestoneData): (p: TempPatch)
    ensures p.title == TempTitle(number, props.title) && p.state == props.state
    ensures p.description == props.description.GetOr("") && p.dueOn == props.dueOn
  {
    TempPatch(TempTitle(number, props.title), props.state, props.description.GetOr(""), props.dueOn)
  }

  /** One reassignment of step two. */
  datatype Move = Move(issue: int, isPr: bool, from: int, to: int)

  /** Everything a reversal sends, in order: the step-one patches, the reassignments it
      makes, and the final titles. */
  datatype ReversalPlan = ReversalPlan(updates: seq<(int, TempPatch)>, moves: seq<Move>, finals: seq<(int, string)>)

  /** `all_issues`: each milestone's issues by number; the later of two milestones with
      the same number wins. */
  function IssuesByNumber(data: seq<MilestoneData>, fetched: seq<seq<Issue>>): (r: map<int, seq<Issue>>)
    requires |fetched| == |data|
    ensures forall n :: n in r <==> exists i :: 0 <= i < |data| && data[i].number == n
    decreases |data|
  {
    if |data| == 0 then map[]
    else
      var k := |data| - 1;
      assert forall i :: 0 <= i < k ==> data[..k][i] == data[i];
      IssuesByNumber(data[..k], fetched[..k])[data[k].number := fetched[k]]
  }

  /** The moves that take the issues of milestone `from` to milestone `to`. */
  function BlockMoves(issues: seq<Issue>, from: int, to: int): (ms: seq<Move>)
    ensures |ms| == |issues|
    ensures forall k :: 0 <= k < |issues| ==> ms[k] == Move(issues[k].number, issues[k].isPr, from, to)
  {
    seq(|issues|, k requires 0 <= k < |issues| => Move(issues[k].number, issues[k].isPr, from, to))
  }

  /** `issue_moves`: for each position i, the issues of the milestone whose properties
      position i receives, moved from that milestone to the one at position i. */
  function AllMoves(targets: seq<MilestoneData>, sources: seq<MilestoneData>, issuesOf: map<int, seq<Issue>>): (r: seq<Move>)
    requires |targets| == |sources|
    requires forall i :: 0 <= i < |sources| ==> sources[i].number in issuesOf
    ensures |r| == IssueTotal(sources, issuesOf)
    decreases |targets|
  {
    if |targets| == 0 then []
    else
      BlockMoves(issuesOf[sources[0].number], sources[0].number, targets[0].number)
        + AllMoves(targets[1..], sources[1..], issuesOf)
  }

  /** How many issues the milestones in `sources` hold together. */
  function IssueTotal(sources: seq<MilestoneData>, issuesOf: map<int, seq<Issue>>): nat
    requires forall i :: 0 <= i < |sources| ==> sources[i].number in issuesOf
    decreases |sources|
  {
    if |sources| == 0 then 0 else |issuesOf[sources[0].number]| + IssueTotal(sources[1..], issuesOf)
  }

  /** The moves step two carries out: a move between different milestones, for an issue
      not moved before. */
  function Executed(moves: seq<Move>, moved: set<int>): (r: seq<Move>)
    ensures forall i :: 0 <= i < |r| ==> r[i] in moves && r[i].from != r[i].to && r[i].issue !in moved
    ensures forall i, j :: 0 <= i < j < |r| ==> r[i].issue != r[j].issue
    decreases |moves|
  {
    if |moves| == 0 then []
    else
      var m := moves[0];
      if m.from != m.to && m.issue !in moved then
        var rest := Executed(moves[1..], moved + {m.issue});
        assert forall i :: 0 <= i < |rest| ==> rest[i] in moves;
        [m] + rest
      else
        var rest := Executed(moves[1..], moved);
        assert forall i :: 0 <= i < |rest| ==> rest[i] in moves;
        rest
  }

  /** Every issue with a move between different milestones, not moved before, is moved. */
  lemma {:induction false} ExecutedComplete(moves: seq<Move>, moved: set<int>, m: Move)
    requires m in moves && m.from != m.to && m.issue !in moved
    ensures exists i :: 0 <= i < |Executed(moves, moved)| && Executed(moves, moved)[i].issue == m.issue
    decreases |moves|
  {
    var h := moves[0];
    if h.from != h.to && h.issue !in moved {
      var r := Executed(moves, moved);
      assert r[0] == h;
      if m.issue != h.issue {
        var rest := Executed(moves[1..], moved + {h.issue});
        assert m in moves[1..];
        ExecutedComplete(moves[1..], moved + {h.issue}, m);
        var i :| 0 <= i < |rest| && rest[i].issue == m.issue;
        assert r[i + 1] == rest[i];
      }
    } else {
      assert Executed(moves, moved) == Executed(moves[1..], moved);
      assert m in moves[1..];
      ExecutedComplete(moves[1..], moved, m);
    }
  }

  /** `milestone_data`. */
  function DataList(milestones: seq<ListedMilestone>): (data: seq<MilestoneData>)
    ensures |data| == |milestones|
    ensures forall i :: 0 <= i < |milestones| ==> data[i] == DataOf(milestones[i])
  {
    seq(|milestones|, i requires 0 <= i < |milestones| => DataOf(milestones[i]))
  }

  /** Step one: milestone i gets the temporary title built from its own number and the
      title of milestone n-1-i, and that milestone's other properties. */
  function Updates(data: seq<MilestoneData>): (ups: seq<(int, TempPatch)>)
    ensures |ups| == |data|
    ensures forall i {:trigger ups[i]} :: 0 <= i < |data| ==>
      ups[i] == (data[i].number, TempPatchFor(data[i].number, data[|data| - 1 - i]))
  {
    seq(|data|, i requires 0 <= i < |data| => (data[i].number, TempPatchFor(data[i].number, data[|data| - 1 - i])))
  }

  /** Step three: milestone i gets the title of milestone n-1-i. */
  function Finals(data: seq<MilestoneData>): (fs: seq<(int, string)>)
    ensures |fs| == |data|
    ensures forall i {:trigger fs[i]} :: 0 <= i < |data| ==> fs[i] == (data[i].number, data[|data| - 1 - i].title)
  {
    seq(|data|, i requires 0 <= i < |data| => (data[i].number, data[|data| - 1 - i].title))
  }

  /** Step two's candidate reassignments: milestone i receives the issues of milestone
      n-1-i. */
  function Candidates(data: seq<MilestoneData>, fetched: seq<seq<Issue>>): seq<Move>
    requires |fetched| == |data|
  {
    ReversedKnown(data, fetched);
    AllMoves(data, Reverse(data), IssuesByNumber(data, fetched))
  }

  /** Step two: the reassignments carried out. */
  function Moves(data: seq<MilestoneData>, fetched: seq<seq<Issue>>): (r: seq<Move>)
    requires |fetched| == |data|
    ensures forall i :: 0 <= i < |r| ==> r[i] in Candidates(data, fetched) && r[i].from != r[i].to
    ensures forall i, j :: 0 <= i < j < |r| ==> r[i].issue != r[j].issue
  {
    Executed(Candidates(data, fetched), {})
  }

  /** Every milestone of the reversed list has its issues in `all_issues`. */
  lemma ReversedKnown(data: seq<MilestoneData>, fetched: seq<seq<Issue>>)
    requires |fetched| == |data|
    ensures forall i {:trigger Reverse(data)[i]} :: 0 <= i < |data| ==> Reverse(data)[i].number in IssuesByNumber(data, fetched)
  {
    var reversed := Reverse(data);
    forall i | 0 <= i < |data| ensures reversed[i].number in IssuesByNumber(data, fetched) {
      assert reversed[i] == data[|data| - 1 - i];
    }
  }

  /** The reversal `main` performs, or nothing when there are fewer than two milestones. */
  function PlanReversal(milestones: seq<ListedMilestone>, fetched: seq<seq<Issue>>): (r: Option<ReversalPlan>)
    requires |fetched| == |milestones|
    ensures r.None? <==> |milestones| < 2
  {
    if |milestones| < 2 then None
    else
      var data := DataList(milestones);
      Some(ReversalPlan(Updates(data), Moves(data, fetched), Finals(data)))
  }

  // ---------------------------------------------------------------- titles never collide

  /** Milestone numbers are distinct, as they are in a repository. */
  predicate DistinctNumbers(milestones: seq<ListedMilestone>) {
    forall i, j :: 0 <= i < j < |milestones| ==> milestones[i].number != milestones[j].number
  }

  /** Step one gives every milestone a different temporary title, whatever the titles it
      starts from. A temporary title may still equal a title that a milestone not yet
      patched holds (see `TempTitleMayClash`). */
  lemma TempTitlesDistinct(milestones: seq<ListedMilestone>, fetched: seq<seq<Issue>>, i: int, j: int)
    requires |fetched| == |milestones| && |milestones| >= 2 && DistinctNumbers(milestones)
    requires 0 <= i < j < |milestones|
    ensures PlanReversal(milestones, fetched).value.updates[i].1.title !=
            PlanReversal(milestones, fetched).value.updates[j].1.title
  {
    var data := DataList(milestones);
    assert PlanReversal(milestones, fetched).value.updates == Updates(data);
    forall a, b | 0 <= a < b < |data| ensures data[a].number != data[b].number {
      assert data[a].number == milestones[a].number && data[b].number == milestones[b].number;
    }
    UpdateTitlesDistinct(data, i, j);
  }

  /** Milestones #1 "a", #2 "TEMP_1_c" and #3 "c": the first patch of step one renames #1
      to the title #2 still holds. */
  lemma TempTitleMayClash()
    ensures var data := [MilestoneData(1, "a", "open", None, None),
                         MilestoneData(2, "TEMP_1_c", "open", None, None),
                         MilestoneData(3, "c", "open", None, None)];
      Updates(data)[0].1.title == data[1].title
  {
    assert IntText(1) == "1";
  }

  /** `TempTitlesDistinct` on the milestone data. */
  lemma UpdateTitlesDistinct(data: seq<MilestoneData>, i: int, j: int)
    requires forall a, b :: 0 <= a < b < |data| ==> data[a].number != data[b].number
    requires 0 <= i < j < |data|
    ensures Updates(data)[i].1.title != Updates(data)[j].1.title
  {
    var ups := Updates(data);
    var ti := TempTitle(data[i].number, data[|data| - 1 - i].title);
    var tj := TempTitle(data[j].number, data[|data| - 1 - j].title);
    assert ups[i].1.title == ti && ups[j].1.title == tj;
    if ti == tj {
      TempTitleInjective(data[i].number, data[|data| - 1 - i].title, data[j].number, data[|data| - 1 - j].title);
    }
  }

  // ---------------------------------------------------------------- effect on milestones

  /** What the repository holds for a milestone after step one. */
  datatype MilestoneState = MilestoneState(title: string, state: string, description: string, dueOn: Option<string>)

  type Milestones = map<int, MilestoneState>

  /** Step one's patches applied in order; each milestone takes every field it is sent. */
  function ApplyTemp(s: Milestones, updates: seq<(int, TempPatch)>): (r: Milestones)
    ensures r.Keys == s.Keys
    decreases |updates|
  {
    if |updates| == 0 then s
    else
      var (n, p) := updates[0];
      var s' := if n in s then s[n := MilestoneState(p.title, p.state, p.description, p.dueOn)] else s;
      ApplyTemp(s', updates[1..])
  }

  /** Step three's patches applied in order; each changes only a title. */
  function ApplyFinals(s: Milestones, finals: seq<(int, string)>): (r: Milestones)
    ensures r.Keys == s.Keys
    decreases |finals|
  {
    if |finals| == 0 then s
    else
      var (n, t) := finals[0];
      var s' := if n in s then s[n := s[n].(title := t)] else s;
      ApplyFinals(s', finals[1..])
  }

  lemma {:induction false} ApplyTempUntouched(s: Milestones, updates: seq<(int, TempPatch)>, n: int)
    requires forall i :: 0 <= i < |updates| ==> updates[i].0 != n
    ensures n in s ==> ApplyTemp(s, updates)[n] == s[n]
    decreases |updates|
  {
    if |updates| > 0 {
      var (m, p) := updates[0];
      var s' := if m in s then s[m := MilestoneState(p.title, p.state, p.description, p.dueOn)] else s;
      ApplyTempUntouched(s', updates[1..], n);
    }
  }

  lemma {:induction false} ApplyTempAt(s: Milestones, updates: seq<(int, TempPatch)>, j: int)
    requires 0 <= j < |updates| && updates[j].0 in s
    requires forall i, k :: 0 <= i < k < |updates| ==> updates[i].0 != updates[k].0
    ensures var p := updates[j].1;
      ApplyTemp(s, updates)[updates[j].0] == MilestoneState(p.title, p.state, p.description, p.dueOn)
    decreases |updates|
  {
    var (m, p) := updates[0];
    var s' := if m in s then s[m := MilestoneState(p.title, p.state, p.description, p.dueOn)] else s;
    if j == 0 {
      ApplyTempUntouched(s', updates[1..], m);
    } else {
      ApplyTempAt(s', updates[1..], j - 1);
    }
  }

  lemma {:induction false} ApplyFinalsUntouched(s: Milestones, finals: seq<(int, string)>, n: int)
    requires forall i :: 0 <= i < |finals| ==> finals[i].0 != n
    ensures n in s ==> ApplyFinals(s, finals)[n] == s[n]
    decreases |finals|
  {
    if |finals| > 0 {
      var (m, t) := finals[0];
      var s' := if m in s then s[m := s[m].(title := t)] else s;
      ApplyFinalsUntouched(s', finals[1..], n);
    }
  }

  lemma {:induction false} ApplyFinalsAt(s: Milestones, finals: seq<(int, string)>, j: int)
    requires 0 <= j < |finals| && finals[j].0 in s
    requires forall i, k :: 0 <= i < k < |finals| ==> finals[i].0 != finals[k].0
    ensures ApplyFinals(s, finals)[finals[j].0] == s[finals[j].0].(title := finals[j].1)
    decreases |finals|
  {
    var (m, t) := finals[0];
    var s' := if m in s then s[m := s[m].(title := t)] else s;
    if j == 0 {
      ApplyFinalsUntouched(s', finals[1..], m);
    } else {
      ApplyFinalsAt(s', finals[1..], j - 1);
    }
  }

  /** After steps one and three, milestone i holds the title, state and due date of
      milestone n-1-i, and its description too (a missing one as ""); no milestone is
      added or removed. */
  lemma ReversalOutcome(milestones: seq<ListedMilestone>, fetched: seq<seq<Issue>>, repo: Milestones, i: int)
    requires |fetched| == |milestones| && |milestones| >= 2 && DistinctNumbers(milestones)
    requires forall k :: 0 <= k < |milestones| ==> milestones[k].number in repo
    requires 0 <= i < |milestones|
    ensures var p := PlanReversal(milestones, fetched).value;
      var after := ApplyFinals(ApplyTemp(repo, p.updates), p.finals);
      var src := DataOf(milestones[|milestones| - 1 - i]);
      && after.Keys == repo.Keys
      && after[milestones[i].number] == MilestoneState(src.title, src.state, src.description.GetOr(""), src.dueOn)
  {
    var p := PlanReversal(milestones, fetched).value;
    assert p.updates == Updates(DataList(milestones)) && p.finals == Finals(DataList(milestones));
    ListedOutcome(milestones, repo, i);
  }

  /** `ReversalOutcome` for the patches built from the listed milestones. */
  lemma ListedOutcome(milestones: seq<ListedMilestone>, repo: Milestones, i: int)
    requires DistinctNumbers(milestones)
    requires forall k :: 0 <= k < |milestones| ==> milestones[k].number in repo
    requires 0 <= i < |milestones|
    ensures var data := DataList(milestones);
      var after := ApplyFinals(ApplyTemp(repo, Updates(data)), Finals(data));
      var src := DataOf(milestones[|milestones| - 1 - i]);
      && after.Keys == repo.Keys
      && after[milestones[i].number] == MilestoneState(src.title, src.state, src.description.GetOr(""), src.dueOn)
  {
    var data := DataList(milestones);
    forall a, b | 0 <= a < b < |data| ensures data[a].number != data[b].number {
      assert data[a].number == milestones[a].number && data[b].number == milestones[b].number;
    }
    forall a | 0 <= a < |data| ensures data[a].number in repo {
      assert data[a].number == milestones[a].number;
    }
    assert data[|data| - 1 - i] == DataOf(milestones[|milestones| - 1 - i]);
    assert data[i].number == milestones[i].number;
    DataOutcome(data, repo, i);
  }

  /** `ReversalOutcome` on the milestone data. */
  lemma DataOutcome(data: seq<MilestoneData>, repo: Milestones, i: int)
    requires forall a, b :: 0 <= a < b < |data| ==> data[a].number != data[b].number
    requires forall a :: 0 <= a < |data| ==> data[a].number in repo
    requires 0 <= i < |data|
    ensures var after := ApplyFinals(ApplyTemp(repo, Updates(data)), Finals(data));
      var src := data[|data| - 1 - i];
      && after.Keys == repo.Keys
      && after[data[i].number] == MilestoneState(src.title, src.state, src.description.GetOr(""), src.dueOn)
  {
    var ups := Updates(data);
    var fs := Finals(data);
    forall a, b | 0 <= a < b < |ups| ensures ups[a].0 != ups[b].0 {
      assert ups[a].0 == data[a].number && ups[b].0 == data[b].number;
    }
    forall a, b | 0 <= a < b < |fs| ensures fs[a].0 != fs[b].0 {
      assert fs[a].0 == data[a].number && fs[b].0 == data[b].number;
    }
    ApplyTempAt(repo, ups, i);
    ApplyFinalsAt(ApplyTemp(repo, ups), fs, i);
  }

  // ---------------------------------------------------------------- effect on issues

  /** The milestone issue `x` ends in after `moves`, starting from `current`. */
  function FinalMilestone(moves: seq<Move>, x: int, current: int): int
    decreases |moves|
  {
    if |moves| == 0 then current
    else FinalMilestone(moves[1..], x, if moves[0].issue == x then moves[0].to else current)
  }

  lemma {:induction false} FinalMilestoneUntouched(moves: seq<Move>, x: int, current: int)
    requires forall i :: 0 <= i < |moves| ==> moves[i].issue != x
    ensures FinalMilestone(moves, x, current) == current
    decreases |moves|
  {
    if |moves| > 0 {
      FinalMilestoneUntouched(moves[1..], x, current);
    }
  }

  /** When every move of issue `x` is the same move `mv`, carrying out the deduplicated
      moves puts `x` where `mv` leads, or leaves it where it is when `mv` goes nowhere. */
  lemma {:induction false} ExecutedSingleMove(moves: seq<Move>, moved: set<int>, x: int, mv: Move, current: int)
    requires mv.issue == x && x !in moved
    requires forall m :: m in moves && m.issue == x ==> m == mv
    ensures FinalMilestone(Executed(moves, moved), x, current) ==
      if mv in moves && mv.from != mv.to then mv.to else current
    decreases |moves|
  {
    if |moves| > 0 {
      var m := moves[0];
      assert forall m' :: m' in moves[1..] ==> m' in moves;
      assert mv in moves <==> m == mv || mv in moves[1..];
      if m.from != m.to && m.issue !in moved {
        var rest := Executed(moves[1..], moved + {m.issue});
        assert Executed(moves, moved) == [m] + rest;
        if m.issue == x {
          FinalMilestoneUntouched(rest, x, m.to);
        } else {
          ExecutedSingleMove(moves[1..], moved + {m.issue}, x, mv, current);
        }
      } else {
        ExecutedSingleMove(moves[1..], moved, x, mv, current);
      }
    }
  }

  /** The moves of one block that carry issue `x` are the moves of its positions. */
  lemma AllMovesStep(targets: seq<MilestoneData>, sources: seq<MilestoneData>, issuesOf: map<int, seq<Issue>>, m: Move)
    requires |targets| == |sources| && |targets| > 0
    requires forall i :: 0 <= i < |sources| ==> sources[i].number in issuesOf
    ensures m in AllMoves(targets, sources, issuesOf) <==>
      m in BlockMoves(issuesOf[sources[0].number], sources[0].number, targets[0].number) ||
      m in AllMoves(targets[1..], sources[1..], issuesOf)
  {
  }

  /** Every move names a position and one of the issues listed for the milestone whose
      properties that position receives. */
  lemma {:induction false} AllMovesFrom(targets: seq<MilestoneData>, sources: seq<MilestoneData>, issuesOf: map<int, seq<Issue>>, m: Move)
      returns (i: int, k: int)
    requires |targets| == |sources|
    requires forall i :: 0 <= i < |sources| ==> sources[i].number in issuesOf
    requires m in AllMoves(targets, sources, issuesOf)
    ensures 0 <= i < |targets| && 0 <= k < |issuesOf[sources[i].number]|
    ensures m == Move(issuesOf[sources[i].number][k].number, issuesOf[sources[i].number][k].isPr, sources[i].number, targets[i].number)
    decreases |targets|
  {
    AllMovesStep(targets, sources, issuesOf, m);
    var block := issuesOf[sources[0].number];
    if m in BlockMoves(block, sources[0].number, targets[0].number) {
      k :| 0 <= k < |block| && BlockMoves(block, sources[0].number, targets[0].number)[k] == m;
      i := 0;
    } else {
      var i', k' := AllMovesFrom(targets[1..], sources[1..], issuesOf, m);
      assert sources[1..][i'] == sources[i' + 1] && targets[1..][i'] == targets[i' + 1];
      i, k := i' + 1, k';
    }
  }

  /** The move of each listed issue at each position is among the moves. */
  lemma {:induction false} AllMovesContains(targets: seq<MilestoneData>, sources: seq<MilestoneData>, issuesOf: map<int, seq<Issue>>, i: int, k: int)
    requires |targets| == |sources|
    requires forall i :: 0 <= i < |sources| ==> sources[i].number in issuesOf
    requires 0 <= i < |targets| && 0 <= k < |issuesOf[sources[i].number]|
    ensures Move(issuesOf[sources[i].number][k].number, issuesOf[sources[i].number][k].isPr, sources[i].number, targets[i].number)
      in AllMoves(targets, sources, issuesOf)
    decreases |targets|
  {
    var m := Move(issuesOf[sources[i].number][k].number, issuesOf[sources[i].number][k].isPr, sources[i].number, targets[i].number);
    AllMovesStep(targets, sources, issuesOf, m);
    if i == 0 {
      assert BlockMoves(issuesOf[sources[0].number], sources[0].number, targets[0].number)[k] == m;
    } else {
      assert sources[1..][i - 1] == sources[i] && targets[1..][i - 1] == targets[i];
      AllMovesContains(targets[1..], sources[1..], issuesOf, i - 1, k);
    }
  }

  /** With distinct numbers, `all_issues` holds for each milestone the issues fetched for
      it. */
  lemma {:induction false} IssuesByNumberAt(data: seq<MilestoneData>, fetched: seq<seq<Issue>>, j: int)
    requires |fetched| == |data| && 0 <= j < |data|
    requires forall i, k :: 0 <= i < k < |data| ==> data[i].number != data[k].number
    ensures IssuesByNumber(data, fetched)[data[j].number] == fetched[j]
    decreases |data|
  {
    var k := |data| - 1;
    if j < k {
      assert data[..k][j] == data[j] && fetched[..k][j] == fetched[j];
      IssuesByNumberAt(data[..k], fetched[..k], j);
    }
  }

  /** Every issue is listed once, under one milestone, as GitHub allows. */
  predicate PlacedOnce(fetched: seq<seq<Issue>>) {
    forall j1, k1, j2, k2 ::
      (0 <= j1 < |fetched| && 0 <= k1 < |fetched[j1]| && 0 <= j2 < |fetched| && 0 <= k2 < |fetched[j2]| &&
       fetched[j1][k1].number == fetched[j2][k2].number) ==> j1 == j2 && k1 == k2
  }

  /** Each issue follows its milestone's properties: an issue of milestone j ends in the
      milestone at position n-1-j, which now carries milestone j's title, state,
      description and due date. An issue of the middle milestone stays where it is. */
  lemma IssuesFollowTheirMilestone(milestones: seq<ListedMilestone>, fetched: seq<seq<Issue>>, j: int, k: int)
    requires |fetched| == |milestones| && |milestones| >= 2 && DistinctNumbers(milestones)
    requires PlacedOnce(fetched)
    requires 0 <= j < |milestones| && 0 <= k < |fetched[j]|
    ensures FinalMilestone(PlanReversal(milestones, fetched).value.moves, fetched[j][k].number, milestones[j].number)
      == milestones[|milestones| - 1 - j].number
  {
    assert PlanReversal(milestones, fetched).value.moves == Moves(DataList(milestones), fetched);
    ListedIssueMoved(milestones, fetched, j, k);
  }

  /** `IssuesFollowTheirMilestone` for the moves built from the listed milestones. */
  lemma ListedIssueMoved(milestones: seq<ListedMilestone>, fetched: seq<seq<Issue>>, j: int, k: int)
    requires |fetched| == |milestones| && DistinctNumbers(milestones) && PlacedOnce(fetched)
    requires 0 <= j < |milestones| && 0 <= k < |fetched[j]|
    ensures FinalMilestone(Moves(DataList(milestones), fetched), fetched[j][k].number, milestones[j].number)
      == milestones[|milestones| - 1 - j].number
  {
    var data := DataList(milestones);
    assert data[j].number == milestones[j].number;
    assert data[|data| - 1 - j].number == milestones[|milestones| - 1 - j].number;
    forall i, i' | 0 <= i < i' < |data| ensures data[i].number != data[i'].number {
      assert data[i].number == milestones[i].number && data[i'].number == milestones[i'].number;
    }
    IssueMoved(data, fetched, j, k);
  }

  lemma IssueMoved(data: seq<MilestoneData>, fetched: seq<seq<Issue>>, j: int, k: int)
    requires |fetched| == |data| && 0 <= j < |data| && 0 <= k < |fetched[j]|
    requires forall i, k :: 0 <= i < k < |data| ==> data[i].number != data[k].number
    requires PlacedOnce(fetched)
    ensures FinalMilestone(Moves(data, fetched), fetched[j][k].number, data[j].number) == data[|data| - 1 - j].number
  {
    var n := |data|;
    var moves := Candidates(data, fetched);
    var x := fetched[j][k].number;
    var mv := Move(x, fetched[j][k].isPr, data[j].number, data[n - 1 - j].number);
    OnlyMoveOf(data, fetched, j, k);
    ExecutedSingleMove(moves, {}, x, mv, data[j].number);
    if j != n - 1 - j {
      assert mv.from != mv.to;
    }
  }

  /** Issue k of milestone j has exactly one move: from milestone j to the milestone at
      position n-1-j. */
  lemma OnlyMoveOf(data: seq<MilestoneData>, fetched: seq<seq<Issue>>, j: int, k: int)
    requires |fetched| == |data| && 0 <= j < |data| && 0 <= k < |fetched[j]|
    requires forall i, k :: 0 <= i < k < |data| ==> data[i].number != data[k].number
    requires PlacedOnce(fetched)
    ensures var moves := Candidates(data, fetched);
      var mv := Move(fetched[j][k].number, fetched[j][k].isPr, data[j].number, data[|data| - 1 - j].number);
      mv in moves && forall m :: m in moves && m.issue == mv.issue ==> m == mv
  {
    var n := |data|;
    var reversed := Reverse(data);
    var issuesOf := IssuesByNumber(data, fetched);
    ReversedKnown(data, fetched);
    var moves := Candidates(data, fetched);
    assert moves == AllMoves(data, reversed, issuesOf);
    var x := fetched[j][k].number;
    var i0 := n - 1 - j;
    IssuesByNumberAt(data, fetched, j);
    assert reversed[i0] == data[j];
    AllMovesContains(data, reversed, issuesOf, i0, k);
    forall m | m in moves && m.issue == x
      ensures m == Move(x, fetched[j][k].isPr, data[j].number, data[i0].number)
    {
      MoveOfIssue(data, fetched, j, k, m);
    }
  }

  /** A candidate move of issue k of milestone j takes it from milestone j to the
      milestone at position n-1-j. */
  lemma MoveOfIssue(data: seq<MilestoneData>, fetched: seq<seq<Issue>>, j: int, k: int, m: Move)
    requires |fetched| == |data| && 0 <= j < |data| && 0 <= k < |fetched[j]|
    requires forall i, k :: 0 <= i < k < |data| ==> data[i].number != data[k].number
    requires PlacedOnce(fetched)
    requires m in Candidates(data, fetched) && m.issue == fetched[j][k].number
    ensures m == Move(fetched[j][k].number, fetched[j][k].isPr, data[j].number, data[|data| - 1 - j].number)
  {
    var j', k' := CandidateShape(data, fetched, m);
    assert fetched[j'][k'].number == fetched[j][k].number;
  }

  /** Every candidate move takes an issue of some milestone j to the milestone at
      position n-1-j. */
  lemma CandidateShape(data: seq<MilestoneData>, fetched: seq<seq<Issue>>, m: Move) returns (j: int, k: int)
    requires |fetched| == |data|
    requires forall i, k :: 0 <= i < k < |data| ==> data[i].number != data[k].number
    requires m in Candidates(data, fetched)
    ensures 0 <= j < |data| && 0 <= k < |fetched[j]|
    ensures m == Move(fetched[j][k].number, fetched[j][k].isPr, data[j].number, data[|data| - 1 - j].number)
  {
    var n := |data|;
    var reversed := Reverse(data);
    var issuesOf := IssuesByNumber(data, fetched);
    ReversedKnown(data, fetched);
    assert m in AllMoves(data, reversed, issuesOf);
    var i, k0 := AllMovesFrom(data, reversed, issuesOf, m);
    j, k := n - 1 - i, k0;
    assert n - 1 - j == i;
    assert reversed[i] == data[j];
    IssuesByNumberAt(data, fetched, j);
    var block := issuesOf[reversed[i].number];
    assert block == fetched[j];
    assert m == Move(block[k].number, block[k].isPr, reversed[i].number, data[i].number);
  }
}
