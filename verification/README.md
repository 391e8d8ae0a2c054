# Repository maintenance scripts, modelled in Dafny

This project models the decision logic of a repository's maintenance scripts. Nothing is
executed. The model states what each script would do as pure functions, and the lemmas
prove properties of those functions.

- **Label configuration** (`manual_scripts/labels.py`, `get_labels_for_repo`). A repository
  lists group specs. Each spec is cut at commas and each part is stripped. The global group
  `""` is always added last. The labels of every defined group are collected; a later
  definition overrides the colour and description of an earlier one, while the label keeps
  its first position. Colours lose their `#`.
- **Label synchronisation** (`sync_labels_from_json` in `labels.py`, `sync_labels` in
  `manual_scripts/sync_labels_milestones.py`). Each script is a plan of create, edit, delete
  and keep actions built from two listings. A small effect model of the repository says what
  each action does to the label it names. This is the partner that the convergence lemmas
  relate the plans to.
- **Milestone synchronisation** (`sync_milestones`, `get_milestones`, the request bodies of
  `create_milestone` and `update_milestone`, and the flag check of `main`). Source
  milestones are sorted by number and matched by number against the target. Each one is
  skipped above a truthy ceiling, left alone when equal, updated when different, and
  created when missing.
- **Milestone reversal** (`manual_scripts/reverse_milestones.py`). Milestone `i` takes over
  the title, state, description and due date of milestone `n-1-i`. It passes through a
  temporary title `TEMP_<number>_<title>`. The issues of milestone `n-1-i` are reassigned
  to milestone `i`, skipping moves that stay in place and issues moved before.
- **Failure injection** (`meta_testing/scripts/{python,dotnet,typescript}`). Each helper is a
  text rewrite. A helper does nothing when the file already carries its marker. The Python
  and TypeScript helpers append a snippet after trimming trailing whitespace. The .NET helper
  replaces every `}\n}`.

Modules follow the scripts:

- `Wrappers`: `Option` and `Result`.
- `Text`: Python and JavaScript string operations:
  - `strip`, `rstrip` and `trimEnd`, each with its own whitespace set;
  - `split`, `join` and `replace`;
  - decimal rendering of integers;
  - brace counting.
- `Dicts`: insertion-ordered Python dicts.
- `Json`: `.get` on JSON objects.
- `LabelConfig`, `LabelSync`, `MilestoneSync`, `Reversal` and `Injection`.

The remote repository is an assumption of the model. `LabelSync.Effect`,
`MilestoneSync.ApplyPatch`, `Reversal.ApplyTemp` and `Reversal.ApplyFinals` encode what the
GitHub CLI and REST API do for each request:

- `label create --force` on an existing label and `label edit` send the same update: it
  sets the colour, and the description only when a non-empty one is passed;
- a PATCH replaces exactly the keys it sends.

## Model

| member | source | states |
|---|---|---|
| LabelConfig.GroupNames | manual_scripts/labels.py:92 | There is one name per comma-separated part of the spec, and name `i` is part `i` with Python whitespace stripped from both ends; no name holds a comma. |
| LabelConfig.GroupNamesOfJoin | manual_scripts/labels.py:92 | Names without commas or surrounding whitespace, joined with commas, are read back exactly. |
| LabelConfig.FlattenMembers | manual_scripts/labels.py:91-93 | A name is in the extended list exactly when one spec's names hold it. |
| LabelConfig.SpecNames | manual_scripts/labels.py:91-93 | Each spec contributes its own split and stripped names, spec by spec. |
| LabelConfig.RepoGroups | manual_scripts/labels.py:90-95 | The repository's groups end with the global group `""`. |
| LabelConfig.RepoGroupsMembers | manual_scripts/labels.py:90-95 | A name is one of the repository's groups exactly when it is `""` or some spec, split and stripped, names it. |
| LabelConfig.PlainColor | manual_scripts/labels.py:103 | The colour is the configured colour with every `#` removed and every other character kept, in order. |
| LabelConfig.CategoryEntries | manual_scripts/labels.py:99-105 | Entry `i` of a category is its label `i` with the category's colour, every `#` removed, and that label's description. |
| LabelConfig.GroupEntries | manual_scripts/labels.py:99-105 | No entry of a group carries a `#` in its colour. |
| LabelConfig.GroupEntriesKeys | manual_scripts/labels.py:99-101 | A group lists a label exactly when one of its categories lists it. |
| LabelConfig.Entries | manual_scripts/labels.py:97-105 | No collected entry carries a `#` in its colour. |
| LabelConfig.EntriesKeys | manual_scripts/labels.py:97-101 | The entries name a label exactly when one of the groups is defined and lists it; undefined groups add nothing. |
| LabelConfig.ResolveLabels | manual_scripts/labels.py:83-107 | The result is an error exactly when the repository is not configured. Otherwise it is a dict with distinct names and `#`-free colours. |
| LabelConfig.ResolvedLabelsDefined | manual_scripts/labels.py:90-105 | A label is resolved exactly when some group of the repository, its own or the global one, is defined and lists it in a category. |
| LabelConfig.GroupListsLabel | manual_scripts/labels.py:97-101 | A label listed by a category of a defined group among the repository's groups is among the collected entries. |
| LabelConfig.GlobalGroupWins | manual_scripts/labels.py:95-105 | A label the global group defines gets the global group's last definition, whatever the repository's groups say. |
| LabelConfig.ResolvedFromLastDefinition | manual_scripts/labels.py:97-105 | Every resolved label carries the colour and description of its last definition in group order. |
| Dicts.Put | manual_scripts/labels.py:102-105 | Assigning a key keeps distinct keys, sets the key's value, and keeps every other key and value. An existing key keeps its position; a new one goes at the end. |
| Dicts.PutAll | manual_scripts/labels.py:97-105 | The keys after a sequence of assignments are the old keys and the assigned ones, and stay distinct. |
| Dicts.PutAllLastWins | manual_scripts/labels.py:97-105 | After a sequence of assignments, a key holds the last value assigned to it. |
| Dicts.PutAllKeepsOthers | manual_scripts/labels.py:97-105 | A key not assigned keeps its value. |
| Dicts.GetAt | manual_scripts/labels.py:126 | With distinct keys, iterating the dict yields each key with its own value. |
| Text.Strip | manual_scripts/labels.py:92 | The result is the one slice of the text with nothing but whitespace before and after it and no whitespace at its own ends. |
| Text.StrippedUnique | manual_scripts/labels.py:92 | At most one slice of a text is its stripped form, so `strip` has a single possible result. |
| Text.Without | manual_scripts/labels.py:103 | Deleting a character keeps every other character and leaves none of the deleted one. |
| Text.IsPythonSpace | manual_scripts/labels.py:92 | On ASCII, Python's whitespace is the space, tab to carriage return, and the four separators 0x1C to 0x1F; whitespace is never a digit or a comma. |
| Text.IsJsSpace | meta_testing/scripts/typescript/introduce_lint_failure.js:29 | JavaScript's whitespace is Python's without the separators 0x1C to 0x1F and U+0085, plus U+FEFF. |
| Text.StripKeepsAbsentChar | manual_scripts/labels.py:92 | Stripping adds no character, so a name cut at a comma holds no comma. |
| Text.Split | manual_scripts/labels.py:92 | Splitting gives at least one part, and no part holds the separator. |
| Text.JoinSplit | manual_scripts/reverse_milestones.py:50 | Joining the parts of a split with the separator gives back the text. |
| Text.SplitJoin | manual_scripts/reverse_milestones.py:50 | Splitting the join of separator-free parts gives back the parts. |
| Text.TrimEnd | meta_testing/scripts/python/introduce_failure.py:38 | The trimmed text is a prefix, does not end in whitespace, and only whitespace was removed. |
| Text.TrimStart | manual_scripts/labels.py:92 | The trimmed text is a suffix, does not start with whitespace, and only whitespace was removed. |
| Text.ReplaceAll | meta_testing/scripts/dotnet/introduce_failure.py:39 | Text without the pattern is unchanged, and text with it holds the replacement afterwards. |
| Text.ReplacementsPositive | meta_testing/scripts/dotnet/introduce_failure.py:39 | At least one replacement is made exactly when the pattern occurs. |
| Text.ReplaceAllBraceBalance | meta_testing/scripts/dotnet/introduce_failure.py:39 | Each replacement shifts the brace balance by the replacement's balance minus the pattern's. |
| Text.ReplaceAllDeletesChar | manual_scripts/labels.py:103 | Replacing a character by "" gives the text with exactly that character deleted. |
| Text.BraceBalanceConcat | meta_testing/scripts/dotnet/introduce_failure.py:39 | Brace balance adds up over concatenation. |
| Text.ParseDecimalInverts | manual_scripts/reverse_milestones.py:98 | Reading back the decimal digits of a number gives the number. |
| Text.IntTextInjective | manual_scripts/reverse_milestones.py:98 | Different numbers render as different text. |
| Text.IntTextSign | manual_scripts/reverse_milestones.py:98 | The rendering starts with `-` exactly for negative numbers. |
| Text.IntText | manual_scripts/reverse_milestones.py:98 | The rendering is non-empty and made of digits and `-` only. |
| Json.Get | manual_scripts/sync_labels_milestones.py:189 | `.get(key)` is a string exactly when the key holds one; missing and `null` both read as `None`. |
| Json.GetDefault | manual_scripts/sync_labels_milestones.py:188 | `.get(key, d)` gives `d` only for a missing key, and `None` for `null`. |
| Json.ToField | manual_scripts/reverse_milestones.py:105-108 | A value written back reads back as itself, and the key is never missing. |
| Json.OrEmpty | manual_scripts/sync_labels_milestones.py:89 | `x or ""` keeps a non-empty string and turns anything else into "". |
| LabelSync.Listed | manual_scripts/labels.py:120 | The name-keyed map holds exactly the listed names. |
| LabelSync.ListedAt | manual_scripts/labels.py:120 | With distinct names, the map holds each listed label's colour and description, a missing description as "". |
| LabelSync.Command | manual_scripts/labels.py:36-66 | A kept label runs nothing. Creation runs `label create <name> --repo <repo> --color <colour> --force`, adding `--description` only when it is non-empty. Editing runs `label edit <name> --repo <repo> --color <colour>`, adding `--description` whenever it is not `None`. Deletion runs exactly `label delete <name> --repo <repo> --yes`. |
| LabelSync.CommandDeterminesEffect | manual_scripts/labels.py:36-71 | Two actions on a label that run the same command have the same effect, so the effect model depends only on what is passed to `gh`. |
| LabelSync.Apply | manual_scripts/labels.py:36-71 | An action changes only the label it names, as the effect model says. |
| LabelSync.ProjectApplyAll | manual_scripts/labels.py:126-150 | After a plan, each label is as the actions naming it leave it. |
| LabelSync.Step | manual_scripts/labels.py:126-144 | A label is kept exactly when it exists and is up to date, edited exactly when it exists and differs, and created exactly when it is missing. A `None` description never counts as up to date. Edits and creations carry the wanted colour and description. |
| LabelSync.StepSettles | manual_scripts/labels.py:126-144 | A successful step leaves its label up to date when the wanted description is a string, and an empty one meets no description to clear. |
| LabelSync.EmptyDescriptionNotCleared | manual_scripts/labels.py:127-139 | A wanted empty description against a label that has one gives an edit, which keeps the old description, so the next run edits again. |
| LabelSync.Names | manual_scripts/labels.py:149 | The managed names are exactly the keys of the wanted labels. |
| LabelSync.Deletions | manual_scripts/labels.py:146-150 | Only deletions are planned, and only of names that are not kept. |
| LabelSync.DeletionOf | manual_scripts/labels.py:146-150 | Every listed label whose name is not kept gets a deletion. |
| LabelSync.ConfigSteps | manual_scripts/labels.py:126-144 | There is one step per wanted label, in configuration order. |
| LabelSync.PlanConfigSync | manual_scripts/labels.py:125-150 | The steps come first, in order. Deletions follow only when unmanaged labels are to be deleted, and only for names outside the configuration. |
| LabelSync.ConfigSyncConverges | manual_scripts/labels.py:110-150 | After a sync where every call succeeds and no description needs clearing, every wanted label is up to date. An unmanaged label is gone when deletion is asked for, and untouched otherwise. |
| LabelSync.ConfigWantedLabel | manual_scripts/labels.py:126-150 | A wanted label is up to date after its step, and the deletions that follow leave it alone. |
| LabelSync.ConfigOtherLabel | manual_scripts/labels.py:126-150 | The steps leave a label the configuration does not name alone. The deletions remove it when asked to; otherwise it stays as it was. |
| LabelSync.ConfigSyncIdempotent | manual_scripts/labels.py:126-139 | A second sync on the result keeps every wanted label, with no create or edit. |
| LabelSync.SuccessCount | manual_scripts/labels.py:125-153 | The count is the number of steps that are keeps or calls that succeeded. So it never exceeds the number of wanted labels, and equals it exactly when every step succeeds. |
| LabelSync.ListedNames | manual_scripts/sync_labels_milestones.py:139 | The source names are exactly the listed names. |
| LabelSync.MirrorSteps | manual_scripts/sync_labels_milestones.py:144-161 | There is one step per source label, in source order. Each names its label and none deletes. |
| LabelSync.MirrorStepAt | manual_scripts/sync_labels_milestones.py:144-161 | Step `i` compares source label `i` against the target map. It uses the label's colour and its description, "" when missing. |
| LabelSync.PlanMirror | manual_scripts/sync_labels_milestones.py:139-161 | The plan ends with one action per source label. Everything before those is a deletion of a name the source lacks. |
| LabelSync.MirrorStepsFollow | manual_scripts/sync_labels_milestones.py:139-161 | After the deletions, the action at position `i` is a non-deleting step for source label `i`. |
| LabelSync.MirrorDeletesStale | manual_scripts/sync_labels_milestones.py:139-142 | Every target label the source lacks is deleted, before any other step. |
| LabelSync.MirrorConverges | manual_scripts/sync_labels_milestones.py:127-161 | After a mirror where every call succeeds and no target description needs clearing, the target holds exactly the source's labels, colours and descriptions. |
| LabelSync.MirrorConvergesAt | manual_scripts/sync_labels_milestones.py:139-161 | The same, label by label. |
| LabelSync.MirrorSourceLabel | manual_scripts/sync_labels_milestones.py:139-161 | With distinct source names, a source label survives the deletions and ends as the source holds it. |
| LabelSync.MirrorOtherLabel | manual_scripts/sync_labels_milestones.py:139-161 | A label the source lacks ends absent. |
| MilestoneSync.Insert | manual_scripts/sync_labels_milestones.py:51 | Inserting into a sorted list keeps it sorted and adds exactly the new milestone. |
| MilestoneSync.InsertPermutes | manual_scripts/sync_labels_milestones.py:51 | Inserting adds one copy of the milestone and changes no other multiplicity. |
| MilestoneSync.SortByNumber | manual_scripts/sync_labels_milestones.py:48-53 | The sorted list has the same length and milestones, in non-decreasing number order. |
| MilestoneSync.SortPermutes | manual_scripts/sync_labels_milestones.py:51 | Sorting is a permutation. |
| MilestoneSync.ByNumber | manual_scripts/sync_labels_milestones.py:178 | The number-keyed map holds exactly the listed numbers, each with a listed milestone of that number. |
| MilestoneSync.AboveCeiling | manual_scripts/sync_labels_milestones.py:183 | A missing or zero ceiling skips nothing; any other ceiling skips exactly the numbers above it. |
| MilestoneSync.SameAsSource | manual_scripts/sync_labels_milestones.py:194-198 | Agreement needs equal titles, equal descriptions (missing read as "") and equal due dates. Equal titles, descriptions and due dates always agree, the number is not compared, and a `null` and a missing due date agree. A missing description agrees with "" in either milestone; a `null` one does not. |
| MilestoneSync.MilestoneStep | manual_scripts/sync_labels_milestones.py:180-203 | A milestone is skipped exactly when a truthy ceiling is below it. Otherwise it is left exactly when a target milestone of its number agrees on title, description (missing read as "") and due date, and created exactly when no target has its number. Updates and creations carry the source's values. |
| MilestoneSync.PlanMilestones | manual_scripts/sync_labels_milestones.py:164-203 | There is one step per source milestone, in non-decreasing number order. |
| MilestoneSync.PlanMilestonesSteps | manual_scripts/sync_labels_milestones.py:180-203 | The plan holds the step of every source milestone, and nothing else. |
| MilestoneSync.PayloadAsWritten | manual_scripts/sync_labels_milestones.py:88-92 | The body always carries a description (`None` or empty becomes ""). It carries `due_on` exactly when the due date is a non-empty string. |
| MilestoneSync.UpdatePayload | manual_scripts/sync_labels_milestones.py:104-108 | The corrected body always sends `due_on`, with `null` for none. |
| MilestoneSync.ApplyPatch | manual_scripts/sync_labels_milestones.py:110-121 | A PATCH replaces the title and description, replaces the due date when sent, and keeps it when omitted. |
| MilestoneSync.UpdateSettles | manual_scripts/sync_labels_milestones.py:104-108 | After a successful update with the corrected body, the next run finds the milestone up to date. |
| MilestoneSync.AsWrittenKeepsStaleDueDate | manual_scripts/sync_labels_milestones.py:104-108 | With the body as written, whenever a source milestone without a due date meets a target milestone of its number that has one, it is updated, the update keeps the stale date, and the next run updates it again. |
| MilestoneSync.SelectMode | manual_scripts/sync_labels_milestones.py:249-289 | Both flags together are an error. Otherwise labels are synchronised unless `--milestones-only` is given, and milestones unless `--labels-only` is given. |
| Reversal.ListMilestones | manual_scripts/reverse_milestones.py:49-54 | Every listed milestone comes from the page of one output line. |
| Reversal.ListMilestonesOfJoin | manual_scripts/reverse_milestones.py:49-54 | Pages printed one per line are read back as the pages' milestones, in order. |
| Reversal.OutputLines | manual_scripts/reverse_milestones.py:50-52 | Every line read is non-empty and holds no newline. |
| Reversal.NonEmpty | manual_scripts/reverse_milestones.py:50-51 | Only non-empty lines are kept, and every non-empty line is kept; if every line is non-empty, all are kept in order. |
| Reversal.NonEmptyAppend | manual_scripts/reverse_milestones.py:50-51 | Filtering two lists of lines one after the other gives the filtered lists one after the other, so the kept lines stay in order. |
| Reversal.NonEmptyKeeps | manual_scripts/reverse_milestones.py:50-51 | A non-empty line is kept. |
| Reversal.NonEmptyCons | manual_scripts/reverse_milestones.py:50-51 | A leading empty line is dropped and a leading non-empty one is kept in front. |
| Reversal.OutputLinesOfJoin | manual_scripts/reverse_milestones.py:49-54 | Non-empty newline-free lines printed one per line, with no whitespace at either end, are read back exactly. |
| Reversal.Pages | manual_scripts/reverse_milestones.py:49-54 | No lines give no milestones, and a single line gives that page's milestones. |
| Reversal.PagesAppend | manual_scripts/reverse_milestones.py:49-54 | Pages are concatenated in the order of their lines. |
| Reversal.ListIssues | manual_scripts/reverse_milestones.py:76-87 | There is one issue per output line, with that line's number, and it is a pull request exactly when the line's `pull_request` is not `null`. |
| Reversal.ListIssuesOfJoin | manual_scripts/reverse_milestones.py:76-87 | Issues printed one per line are read back one per line. |
| Reversal.IssuesOf | manual_scripts/reverse_milestones.py:76-87 | Each line gives one issue with its number. It is a pull request exactly when the line's `pull_request` is not `null`. |
| Reversal.Reverse | manual_scripts/reverse_milestones.py:192 | Position `i` of the reversed list holds position `n-1-i`. |
| Reversal.TempTitle | manual_scripts/reverse_milestones.py:98 | The temporary title starts with `TEMP_` and ends with the title it is built from. |
| Reversal.TempTitleInjective | manual_scripts/reverse_milestones.py:98 | A temporary title determines both the milestone number and the title it was built from. |
| Reversal.TempPatchFor | manual_scripts/reverse_milestones.py:98-108 | The step-one body carries the temporary title, the state, the description (`None` as "") and the due date as it is, `None` included. |
| Reversal.IssuesByNumber | manual_scripts/reverse_milestones.py:173-190 | `all_issues` has an entry for exactly the listed milestone numbers. |
| Reversal.IssuesByNumberAt | manual_scripts/reverse_milestones.py:190 | With distinct numbers, each milestone's entry is the issues fetched for it. |
| Reversal.BlockMoves | manual_scripts/reverse_milestones.py:219-228 | Each issue of a milestone gets one planned move, from that milestone to the receiving one. |
| Reversal.AllMoves | manual_scripts/reverse_milestones.py:214-228 | There is one planned move per listed issue, summed over the milestones. |
| Reversal.AllMovesStep | manual_scripts/reverse_milestones.py:215-228 | The planned moves are the first position's block followed by the moves of the remaining positions. |
| Reversal.AllMovesFrom | manual_scripts/reverse_milestones.py:215-228 | Every planned move takes one listed issue of the milestone at some position to the milestone receiving its properties. |
| Reversal.AllMovesContains | manual_scripts/reverse_milestones.py:215-228 | Every listed issue of every position has its planned move. |
| Reversal.Executed | manual_scripts/reverse_milestones.py:230-240 | Every executed move is planned, goes between different milestones, and concerns an issue not moved before. No issue is moved twice. |
| Reversal.Moves | manual_scripts/reverse_milestones.py:213-240 | Every executed move is planned and changes the milestone, and no two executed moves concern the same issue. |
| Reversal.ExecutedComplete | manual_scripts/reverse_milestones.py:230-240 | Every planned move between different milestones, for an issue not moved before, moves that issue. |
| Reversal.ExecutedSingleMove | manual_scripts/reverse_milestones.py:230-240 | An issue with a single distinct planned move ends where that move leads, or stays put when the move stays in place. |
| Reversal.DataList | manual_scripts/reverse_milestones.py:173-188 | `milestone_data` keeps each milestone's number, title, state, description and due date, in listing order. |
| Reversal.Updates | manual_scripts/reverse_milestones.py:197-211 | Milestone `i` is patched with its own number in the temporary title and the properties of milestone `n-1-i`. |
| Reversal.Finals | manual_scripts/reverse_milestones.py:243-250 | Milestone `i` finally gets the title of milestone `n-1-i`. |
| Reversal.PlanReversal | manual_scripts/reverse_milestones.py:163-169 | Nothing is planned exactly when there are fewer than two milestones. |
| Reversal.TempTitlesDistinct | manual_scripts/reverse_milestones.py:197-211 | No two milestones get the same temporary title, whatever titles they start with. |
| Reversal.TempTitleMayClash | manual_scripts/reverse_milestones.py:197-211 | Milestones #1 "a", #2 "TEMP_1_c" and #3 "c": the first temporary title is the title #2 still holds. |
| Reversal.UpdateTitlesDistinct | manual_scripts/reverse_milestones.py:197-211 | The same on the milestone data. |
| Reversal.ApplyTemp | manual_scripts/reverse_milestones.py:110-120 | Patching milestones neither adds nor removes any. |
| Reversal.ApplyTempAt | manual_scripts/reverse_milestones.py:197-211 | With distinct numbers, each milestone holds every field of its own step-one patch. |
| Reversal.ApplyFinals | manual_scripts/reverse_milestones.py:123-134 | Title patches neither add nor remove milestones. |
| Reversal.ApplyFinalsAt | manual_scripts/reverse_milestones.py:243-250 | With distinct numbers, each milestone's title is its final title and its other fields are kept. |
| Reversal.ReversalOutcome | manual_scripts/reverse_milestones.py:192-250 | After steps one and three, milestone `i` holds the title, state, description (`None` as "") and due date of milestone `n-1-i`, and no milestone is added or removed. |
| Reversal.ListedOutcome | manual_scripts/reverse_milestones.py:192-250 | The same for the patches built from the listed milestones. |
| Reversal.DataOutcome | manual_scripts/reverse_milestones.py:192-250 | The same on the milestone data. |
| Reversal.IssuesFollowTheirMilestone | manual_scripts/reverse_milestones.py:213-240 | An issue of milestone `j` ends in milestone `n-1-j`, the one now carrying `j`'s properties. An issue of the middle milestone stays. |
| Reversal.ListedIssueMoved | manual_scripts/reverse_milestones.py:213-240 | The same for the moves built from the listed milestones. |
| Reversal.IssueMoved | manual_scripts/reverse_milestones.py:213-240 | The same on the milestone data. |
| Reversal.OnlyMoveOf | manual_scripts/reverse_milestones.py:214-228 | Each listed issue has exactly one planned move, from its milestone to the mirrored position. |
| Reversal.MoveOfIssue | manual_scripts/reverse_milestones.py:214-228 | Any planned move of a listed issue is that move. |
| Reversal.CandidateShape | manual_scripts/reverse_milestones.py:214-228 | Every planned move takes an issue of some milestone `j` to the milestone at position `n-1-j`. |
| Injection.AppendAfterTrim | meta_testing/scripts/python/introduce_failure.py:33-38 | A marked text is left alone. Otherwise the trimmed text is a prefix of the result, followed exactly by the suffix, and the result carries the marker. |
| Injection.InjectPython | meta_testing/scripts/python/introduce_failure.py:27-38 | A missing file is refused, and a marked file is left alone. Otherwise the result is the text without trailing whitespace, a newline and the failing test. An existing unmarked file is always written. |
| Injection.PythonSnippetHasMarker | meta_testing/scripts/python/introduce_failure.py:8-15 | The failing test contains the marker. |
| Injection.PythonInjectionIdempotent | meta_testing/scripts/python/introduce_failure.py:33-38 | Running the helper again changes nothing. |
| Injection.PythonInjectionKeepsContents | meta_testing/scripts/python/introduce_failure.py:38 | The text without trailing whitespace is a prefix of the result, and the result is exactly one newline and the snippet longer. |
| Injection.DotnetSnippetBalanced | meta_testing/scripts/dotnet/introduce_failure.py:8-15 | The injected fact's braces pair up. |
| Injection.DotnetSnippetHasMarker | meta_testing/scripts/dotnet/introduce_failure.py:8-17 | The injected fact contains the marker. |
| Injection.InjectByReplacing | meta_testing/scripts/dotnet/introduce_failure.py:29-39 | A missing file is refused, and a marked file is left alone. Text without `}\n}` is written back unchanged; text with it gains the marker. An existing unmarked file is always written. |
| Injection.InjectDotnetAsWritten | meta_testing/scripts/dotnet/introduce_failure.py:29-39 | The helper as written refuses a missing file and leaves a marked file alone. Otherwise it replaces every `}\n}` with the snippet and one closing brace. An existing unmarked file is always written. |
| Injection.InjectDotnet | meta_testing/scripts/dotnet/introduce_failure.py:29-39 | The corrected helper behaves the same, but keeps both closing braces around the snippet. An existing unmarked file is always written. |
| Injection.DotnetInjectionIdempotent | meta_testing/scripts/dotnet/introduce_failure.py:35-39 | A second run of either version writes nothing new. |
| Injection.DotnetAsWrittenUnbalances | meta_testing/scripts/dotnet/introduce_failure.py:39 | As written, each replacement leaves one more `{` than `}`, so balanced text with a match stops being balanced. |
| Injection.DotnetInjectionKeepsBraces | meta_testing/scripts/dotnet/introduce_failure.py:39 | The corrected rewrite keeps the brace balance of every text. |
| Injection.DotnetAsWrittenBreaksSample | meta_testing/projects/dotnet/SampleApp.Tests/CalculatorTests.cs:34-39 | On the brace skeleton of the sample test class, the rewrite as written leaves a brace unclosed and the corrected one does not. |
| Injection.InjectLint | meta_testing/scripts/typescript/introduce_lint_failure.js:9-29 | A missing or empty path argument and a missing file are refused, and a marked file is left alone. Otherwise the result is the text without trailing whitespace followed by the snippet. |
| Injection.LintInjectionIdempotent | meta_testing/scripts/typescript/introduce_lint_failure.js:20-29 | Repeated runs converge after one write. |

## Left out

- Running `gh`, `subprocess`, confirmation prompts, `argparse`, printing and file reading or writing. The plans are the model. Listings and file contents are parameters, and decoding one JSON line or page is a function parameter.
- Failing calls. `run_gh_command` exits. The label and milestone helpers of `labels.py` and `sync_labels_milestones.py` catch `SystemExit` and carry on with the next item. A failure enters the model only in `LabelSync.SuccessCount`, through the `ok` predicate. The convergence lemmas assume that every call succeeds.
- A failed call in `reverse_milestones.py`. Nothing there catches the exit, so a failure ends the reversal partway, for instance with milestones still holding their `TEMP_` titles. `Reversal.ReversalOutcome` and `Reversal.IssuesFollowTheirMilestone` assume that every call succeeds.
- The effect of requests on GitHub is an assumption stated as functions (`LabelSync.Effect`, `MilestoneSync.ApplyPatch`, `Reversal.ApplyTemp`, `Reversal.ApplyFinals`). It is not derived from code.
- Which number GitHub gives a created milestone. `create_milestone` cannot choose one, so convergence is proved for updates only.
- `sync_labels_milestones.get_milestones` fetches one page of at most 100 milestones. The model takes whatever listing it is given.
- Looping over every configured repository in `labels.py`'s `main`, `list_repos` and `preview_labels`. They only iterate and print.
- The final listing at the end of `reverse_milestones.py`. It only prints.
- A configuration whose category lacks `color` or `labels` raises `KeyError` in the script. The datatypes always carry both fields.
- `scripts/`, `.github/scripts/` and the meta-testing sample projects are not part of this model. The sample .NET test class appears only as the brace skeleton `Injection.SampleSkeleton`.
- MilestoneSync.SortByNumber: proved sorted, and a permutation by `MilestoneSync.SortPermutes`. Stability is not proved, although Python's sort is stable and the model's insertion sort keeps equal numbers in order.
- LabelSync.ConfigSyncConverges: proved only when every wanted description is a string. A `null` description in the file never counts as up to date (`LabelSync.Step`), so that label is edited again on every run. A wanted empty description is proved to settle only where the label is missing or has no description (`LabelSync.Clearable`): the update `gh` sends omits an empty description, so an existing one is never cleared and the label is edited on every run (`LabelSync.EmptyDescriptionNotCleared`).
- LabelSync.MirrorConverges: requires that a source label without a description has none in the target (`LabelSync.Clearable`), for the same reason: the edit the mirror sends cannot clear a description.
- MilestoneSync.UpdateSettles: requires a source description that is not `null`. `update_milestone` sends a `null` description as "", so the next comparison sees "" against `None` and updates again.
- Reversal.PlanReversal: its own contract only states when nothing is planned. What the plan does is stated by `Reversal.ReversalOutcome`, `Reversal.TempTitlesDistinct` and `Reversal.IssuesFollowTheirMilestone`. Those lemmas assume distinct milestone numbers and that each issue is listed under one milestone, as in a repository.
- Reversal.TempTitlesDistinct: temporary titles differ from each other, but one may equal a title that a milestone not yet patched still holds (`Reversal.TempTitleMayClash`). GitHub's rule that milestone titles are unique is not modelled, so neither is the request it would reject.
- LabelSync.Effect: label names are compared exactly, as the scripts' dict lookups do, while GitHub matches label names case-insensitively. With a configured "Bug" and a listed "bug", the script creates "Bug" with `--force` (GitHub updates the existing label) and, under `--delete-unmanaged`, deletes "bug", the same label. `LabelSync.ConfigSyncConverges` and `LabelSync.MirrorConverges` are stated for the effect model, that is for names that differ in more than letter case.

## Findings

| source | as written | input that shows it | evidently intended | confidence | as-written member | corrected member |
|---|---|---|---|---|---|---|
| meta_testing/scripts/dotnet/introduce_failure.py:39 | every `}\n}` becomes the failing fact followed by `\n}`, so the first brace of each match is dropped | the sample test class, whose last method's `}` and the class's `}` form the match: the fact is injected inside the last method and the class is never closed | replace `}\n}` with `}` + the fact + `\n}` so the method closes before the fact and the class after it | high, not executed | Injection.DotnetAsWrittenBreaksSample | Injection.DotnetInjectionKeepsBraces |
| manual_scripts/sync_labels_milestones.py:104-108 | `update_milestone` sends `due_on` only when it is truthy | a source milestone without a due date and a target milestone with one: the update leaves the target's date, and every run updates again | send `due_on` in every update, `null` when the source has none, so the date is cleared | medium (relies on PATCH leaving omitted fields unchanged), not executed | MilestoneSync.AsWrittenKeepsStaleDueDate | MilestoneSync.UpdateSettles |
