/** The three meta-testing helpers that plant a deliberate failure in a sample project:
    a failing pytest test, a failing xUnit fact, and an unused TypeScript variable for the
    linter. Each is a rewrite of one file's text that does nothing when the file already
    carries its marker. Reading and writing the file are left to the caller: a rewrite
    receives whether the file exists and its current text, and answers what it would do. */
module Injection {
  import opened Text
  import opened Wrappers

  /** Why a helper refused to run; in the scripts, the exception they raise. */
  datatype Refusal = MissingArgument | MissingFile

  /** What a helper does to its target file. */
  datatype Outcome =
    | Refused(reason: Refusal)   // an exception is raised and nothing is written
    | Unchanged                  // the marker is already there: no write
    | Written(contents: string)  // the file is overwritten with `contents`

  /** The file's text after the helper ran on a file holding `contents`. */
  function FileAfter(contents: string, o: Outcome): string
  {
    if o.Written? then o.contents else contents
  }

  // ---------------------------------------------------------------------------
  // Python: append a failing test after the trimmed module text.

  const PythonMarker := "test_forced_meta_failure"

  const PythonSnippet :=
    "\n\ndef " + PythonMarker + "() -> None:\n"
    + "    \"\"\"Fail intentionally so regression detection can be rehearsed.\"\"\"\n"
    + "    raise AssertionError(\"Meta-testing injected failure\")\n"

  lemma PythonSnippetHasMarker()
    ensures Contains(PythonSnippet, PythonMarker)
  {
    assert OccursAt(PythonMarker, PythonMarker, 0);
    ContainsInConcat("\n\ndef ", PythonMarker, PythonMarker);
    ContainsInConcat("\n\ndef " + PythonMarker, "() -> None:\n", PythonMarker);
    ContainsInConcat("\n\ndef " + PythonMarker + "() -> None:\n",
      "    \"\"\"Fail intentionally so regression detection can be rehearsed.\"\"\"\n", PythonMarker);
    ContainsInConcat("\n\ndef " + PythonMarker + "() -> None:\n"
      + "    \"\"\"Fail intentionally so regression detection can be rehearsed.\"\"\"\n",
      "    raise AssertionError(\"Meta-testing injected failure\")\n", PythonMarker);
  }

  /** The rewrite shared by the Python and TypeScript helpers on an existing file: leave a
      marked text alone, otherwise append `suffix` to the text with its trailing space
      characters removed. */
  function AppendAfterTrim(contents: string, marker: string, suffix: string, isSpace: char -> bool): (o: Outcome)
    requires Contains(suffix, marker)
    ensures Contains(contents, marker) <==> o == Unchanged
    ensures o.Written? ==>
      var kept := TrimEnd(contents, isSpace);
      && kept <= o.contents
      && o.contents[|kept|..] == suffix
      && Contains(o.contents, marker)
    ensures o.Unchanged? || o.Written?
  {
    if Contains(contents, marker) then Unchanged
    else
      var kept := TrimEnd(contents, isSpace);
      ContainsInConcat(kept, suffix, marker);
      assert (kept + suffix)[|kept|..] == suffix;
      Written(kept + suffix)
  }

  /** The Python helper: refuses a missing file, leaves a marked file alone, and otherwise
      appends a newline and the failing test to the text with its trailing whitespace
      removed. */
  function InjectPython(exists_: bool, contents: string): (o: Outcome)
    ensures !exists_ <==> o == Refused(MissingFile)
    ensures exists_ && Contains(contents, PythonMarker) <==> o == Unchanged
    ensures exists_ && !Contains(contents, PythonMarker) ==> o.Written?
    ensures o.Written? ==>
      var kept := TrimEnd(contents, IsPythonSpace);
      && kept <= o.contents
      && o.contents[|kept|..] == "\n" + PythonSnippet
      && Contains(o.contents, PythonMarker)
  {
    if !exists_ then Refused(MissingFile)
    else
      PythonSnippetHasMarker();
      ContainsInConcat("\n", PythonSnippet, PythonMarker);
      AppendAfterTrim(contents, PythonMarker, "\n" + PythonSnippet, IsPythonSpace)
  }

  /** Running the Python helper a second time changes nothing. */
  lemma PythonInjectionIdempotent(contents: string)
    ensures var once := FileAfter(contents, InjectPython(true, contents));
            InjectPython(true, once) == Unchanged
  {
  }

  /** The text before the trailing whitespace survives the rewrite as a prefix. */
  lemma PythonInjectionKeepsContents(contents: string)
    requires !Contains(contents, PythonMarker)
    ensures TrimEnd(contents, IsPythonSpace) <= FileAfter(contents, InjectPython(true, contents))
    ensures |FileAfter(contents, InjectPython(true, contents))|
         == |TrimEnd(contents, IsPythonSpace)| + 1 + |PythonSnippet|
  {
  }

  // ---------------------------------------------------------------------------
  // .NET: put a failing xUnit fact where a method's closing brace meets the class's.

  const DotnetMarker := "MetaInjectedFailure"

  // The snippet is assembled from pieces of at most forty characters, each free of
  // braces, around the braces of the method body.
  const FactHeader := "\n\n    [Fact]\n    public void "
  const SignatureEnd := "()\n    "
  const AssertCall := "\n        Assert.True(false, "
  const FailureMessage := "\"Meta-testing injected failure\""
  const StatementEnd := ");\n    "

  const DotnetSnippet :=
    FactHeader + DotnetMarker + SignatureEnd + "{" + AssertCall + FailureMessage + StatementEnd + "}" + "\n"

  /** The text the script looks for: a closing brace, a newline, a closing brace. */
  const ClosingBraces := "}\n}"

  /** The replacement as the script writes it: the snippet and one closing brace. */
  const DotnetReplacementAsWritten := DotnetSnippet + "\n}"

  /** The replacement keeping both closing braces of the match around the snippet. */
  const DotnetReplacement := "}" + DotnetSnippet + "\n}"

  lemma FactHeaderBraceFree() ensures BraceFree(FactHeader) {}
  lemma SignatureEndBraceFree() ensures BraceFree(SignatureEnd) {}
  lemma AssertCallBraceFree() ensures BraceFree(AssertCall) {}
  lemma FailureMessageBraceFree() ensures BraceFree(FailureMessage) {}
  lemma StatementEndBraceFree() ensures BraceFree(StatementEnd) {}
  lemma DotnetMarkerBraceFree() ensures BraceFree(DotnetMarker) {}

  /** The snippet's braces pair up. */
  lemma DotnetSnippetBalanced()
    ensures BraceBalance(DotnetSnippet) == 0
  {
    FactHeaderBraceFree();
    SignatureEndBraceFree();
    AssertCallBraceFree();
    FailureMessageBraceFree();
    StatementEndBraceFree();
    DotnetMarkerBraceFree();
    BraceFreeBalance(FactHeader);
    BraceFreeBalance(DotnetMarker);
    BraceFreeBalance(SignatureEnd);
    BraceFreeBalance(AssertCall);
    BraceFreeBalance(FailureMessage);
    BraceFreeBalance(StatementEnd);
    var head := FactHeader + DotnetMarker + SignatureEnd;
    BraceBalanceConcat(FactHeader, DotnetMarker);
    BraceBalanceConcat(FactHeader + DotnetMarker, SignatureEnd);
    var body := AssertCall + FailureMessage + StatementEnd;
    BraceBalanceConcat(AssertCall, FailureMessage);
    BraceBalanceConcat(AssertCall + FailureMessage, StatementEnd);
    assert DotnetSnippet == head + "{" + body + "}" + "\n";
    BraceBalanceConcat(head, "{");
    BraceBalanceConcat(head + "{", body);
    BraceBalanceConcat(head + "{" + body, "}");
    BraceBalanceConcat(head + "{" + body + "}", "\n");
  }

  lemma DotnetSnippetHasMarker()
    ensures Contains(DotnetSnippet, DotnetMarker)
  {
    assert OccursAt(DotnetMarker, DotnetMarker, 0);
    ContainsInConcat(FactHeader, DotnetMarker, DotnetMarker);
    var tail := SignatureEnd + "{" + AssertCall + FailureMessage + StatementEnd + "}" + "\n";
    assert DotnetSnippet == (FactHeader + DotnetMarker) + tail;
    ContainsInConcat(FactHeader + DotnetMarker, tail, DotnetMarker);
  }

  lemma ClosingBracesBalance()
    ensures BraceBalance(ClosingBraces) == -2
  {
    assert ClosingBraces == "}" + "\n" + "}";
    SingleBraceBalance('}');
    SingleBraceBalance('\n');
    BraceBalanceConcat("}", "\n");
    BraceBalanceConcat("}" + "\n", "}");
  }

  lemma ReplacementBalances()
    ensures BraceBalance(DotnetReplacementAsWritten) == -1
    ensures BraceBalance(DotnetReplacement) == -2
  {
    DotnetSnippetBalanced();
    SingleBraceBalance('}');
    SingleBraceBalance('\n');
    BraceBalanceConcat("\n", "}");
    BraceBalanceConcat(DotnetSnippet, "\n}");
    BraceBalanceConcat("}", DotnetSnippet);
    BraceBalanceConcat("}" + DotnetSnippet, "\n}");
  }

  /** The rewrite shared by both versions of the .NET helper. */
  function InjectByReplacing(exists_: bool, contents: string, replacement: string): (o: Outcome)
    requires Contains(replacement, DotnetMarker)
    ensures !exists_ <==> o == Refused(MissingFile)
    ensures exists_ && Contains(contents, DotnetMarker) <==> o == Unchanged
    ensures exists_ && !Contains(contents, DotnetMarker) ==> o.Written?
    ensures o.Written? && !Contains(contents, ClosingBraces) ==> o.contents == contents
    ensures o.Written? && Contains(contents, ClosingBraces) ==> Contains(o.contents, DotnetMarker)
  {
    if !exists_ then Refused(MissingFile)
    else if Contains(contents, DotnetMarker) then Unchanged
    else
      var written := ReplaceAll(contents, ClosingBraces, replacement);
      if Contains(contents, ClosingBraces) then
        var i: nat :| i <= |written| && OccursAt(written, replacement, i);
        assert written == written[..i] + (replacement + written[i + |replacement|..]);
        ContainsInConcat(replacement, written[i + |replacement|..], DotnetMarker);
        ContainsInConcat(written[..i], replacement + written[i + |replacement|..], DotnetMarker);
        Written(written)
      else
        Written(written)
  }

  /** The .NET helper as the script is written: every `}\n}` becomes the snippet
      followed by `\n}`, so the first brace of each match is lost. */
  function InjectDotnetAsWritten(exists_: bool, contents: string): (o: Outcome)
    ensures !exists_ <==> o == Refused(MissingFile)
    ensures exists_ && Contains(contents, DotnetMarker) <==> o == Unchanged
    ensures exists_ && !Contains(contents, DotnetMarker) ==> o.Written?
    ensures o.Written? ==> o.contents == ReplaceAll(contents, ClosingBraces, DotnetReplacementAsWritten)
  {
    DotnetSnippetHasMarker();
    ContainsInConcat(DotnetSnippet, "\n}", DotnetMarker);
    InjectByReplacing(exists_, contents, DotnetReplacementAsWritten)
  }

  /** The .NET helper with the lost brace put back in front of the snippet. */
  function InjectDotnet(exists_: bool, contents: string): (o: Outcome)
    ensures !exists_ <==> o == Refused(MissingFile)
    ensures exists_ && Contains(contents, DotnetMarker) <==> o == Unchanged
    ensures exists_ && !Contains(contents, DotnetMarker) ==> o.Written?
    ensures o.Written? ==> o.contents == ReplaceAll(contents, ClosingBraces, DotnetReplacement)
  {
    DotnetSnippetHasMarker();
    ContainsInConcat("}", DotnetSnippet, DotnetMarker);
    ContainsInConcat("}" + DotnetSnippet, "\n}", DotnetMarker);
    InjectByReplacing(exists_, contents, DotnetReplacement)
  }

  /** A file without `}\n}` is written back unchanged, and one with it gains the marker,
      so the second run of either version is a no-op. */
  lemma DotnetInjectionIdempotent(contents: string)
    ensures var once := FileAfter(contents, InjectDotnet(true, contents));
            FileAfter(once, InjectDotnet(true, once)) == once
    ensures var once := FileAfter(contents, InjectDotnetAsWritten(true, contents));
            FileAfter(once, InjectDotnetAsWritten(true, once)) == once
  {
  }

  /** As written, every rewritten `}\n}` leaves one more `{` than `}`: a file whose braces
      pair up stops pairing up. */
  lemma DotnetAsWrittenUnbalances(contents: string)
    requires !Contains(contents, DotnetMarker)
    ensures BraceBalance(FileAfter(contents, InjectDotnetAsWritten(true, contents)))
         == BraceBalance(contents) + Replacements(contents, ClosingBraces)
    ensures Contains(contents, ClosingBraces) && BraceBalance(contents) == 0 ==>
            BraceBalance(FileAfter(contents, InjectDotnetAsWritten(true, contents))) > 0
  {
    var after := ReplaceAll(contents, ClosingBraces, DotnetReplacementAsWritten);
    assert FileAfter(contents, InjectDotnetAsWritten(true, contents)) == after;
    ReplacementBalances();
    ClosingBracesBalance();
    ReplaceAllBraceBalance(contents, ClosingBraces, DotnetReplacementAsWritten);
    ReplacementsPositive(contents, ClosingBraces);
  }

  /** The corrected helper keeps the brace balance of every file. */
  lemma DotnetInjectionKeepsBraces(contents: string)
    ensures BraceBalance(FileAfter(contents, InjectDotnet(true, contents))) == BraceBalance(contents)
  {
    ReplacementBalances();
    ClosingBracesBalance();
    ReplaceAllBraceBalance(contents, ClosingBraces, DotnetReplacement);
  }

  /** The brace skeleton of the sample project's test file: a class holding one method.
      The script's rewrite closes the method after the snippet and never closes the class. */
  const SampleSkeleton := "{\n{\n" + ClosingBraces

  lemma SampleSkeletonFacts()
    ensures BraceBalance(SampleSkeleton) == 0
    ensures Contains(SampleSkeleton, ClosingBraces)
    ensures !Contains(SampleSkeleton, DotnetMarker)
  {
    SingleBraceBalance('{');
    SingleBraceBalance('\n');
    BraceBalanceConcat("{", "\n");
    BraceBalanceConcat("{\n", "{\n");
    ClosingBracesBalance();
    BraceBalanceConcat("{\n{\n", ClosingBraces);
    assert "{\n" == "{" + "\n";
    assert "{\n{\n" == "{\n" + "{\n";
    assert SampleSkeleton[4..4 + |ClosingBraces|] == ClosingBraces;
    assert OccursAt(SampleSkeleton, ClosingBraces, 4);
    assert |SampleSkeleton| < |DotnetMarker|;
    forall i: nat | i <= |SampleSkeleton|
      ensures !OccursAt(SampleSkeleton, DotnetMarker, i)
    {
    }
  }

  /** On the skeleton, the script's rewrite leaves an unclosed brace and the corrected
      rewrite does not. */
  lemma DotnetAsWrittenBreaksSample()
    ensures BraceBalance(SampleSkeleton) == 0
    ensures BraceBalance(FileAfter(SampleSkeleton, InjectDotnetAsWritten(true, SampleSkeleton))) > 0
    ensures BraceBalance(FileAfter(SampleSkeleton, InjectDotnet(true, SampleSkeleton))) == 0
  {
    SampleSkeletonFacts();
    DotnetAsWrittenUnbalances(SampleSkeleton);
    DotnetInjectionKeepsBraces(SampleSkeleton);
  }

  // ---------------------------------------------------------------------------
  // TypeScript: append an unused variable for the linter to reject.

  const LintMarker := "// META_LINT_FAILURE"

  const LintSnippet := "\n" + LintMarker + "\nconst unusedMetaLintVariable = 42;\n"

  /** The TypeScript helper: refuses a missing or empty path argument and a missing file,
      exits without writing when the marker is present, and otherwise appends the snippet
      to the text with its trailing whitespace removed. */
  function InjectLint(pathArg: Option<string>, exists_: bool, contents: string): (o: Outcome)
    ensures (pathArg == None || pathArg == Some("")) <==> o == Refused(MissingArgument)
    ensures o == Refused(MissingFile) <==> pathArg != None && pathArg != Some("") && !exists_
    ensures o == Unchanged <==>
      pathArg != None && pathArg != Some("") && exists_ && Contains(contents, LintMarker)
    ensures o.Written? ==>
      var kept := TrimEnd(contents, IsJsSpace);
      && kept <= o.contents
      && o.contents[|kept|..] == LintSnippet
      && Contains(o.contents, LintMarker)
  {
    if pathArg.None? || pathArg.value == "" then Refused(MissingArgument)
    else if !exists_ then Refused(MissingFile)
    else
      assert OccursAt(LintSnippet, LintMarker, 1);
      AppendAfterTrim(contents, LintMarker, LintSnippet, IsJsSpace)
  }

  /** Repeated runs of the TypeScript helper converge after one write. */
  lemma LintInjectionIdempotent(pathArg: Option<string>, contents: string)
    ensures var once := FileAfter(contents, InjectLint(pathArg, true, contents));
            FileAfter(once, InjectLint(pathArg, true, once)) == once
  {
  }
}
