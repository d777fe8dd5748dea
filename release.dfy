/**
 * The top level of the release script (scripts/version-and-commit.mjs): argument
 * lookup, the bump-type check, the messages handed to git, the behaviour of the
 * silent `exec`, and the run itself as a sequence of steps with early exits.
 *
 * Every shell command is decided by `shell`, which says whether the command exits
 * with status 0. The run returns what it did: how it ended, its exit code, the
 * commands it issued in order, the `setOutput` pairs, and the files it wrote.
 */
module Release {
  import opened Wrappers
  import opened Text
  import opened ReleaseVersion
  import opened Changelog

  // ---------------------------------------------------------------------------
  // arguments (lines 15-30)
  // ---------------------------------------------------------------------------

  /** `args.indexOf(x)`: the first index holding `x`. */
  function IndexOf(args: seq<string>, x: string): (r: Option<nat>)
    ensures r.Some? ==> r.value < |args| && args[r.value] == x
    ensures forall k :: 0 <= k < |args| && (r.None? || k < r.value) ==> args[k] != x
  {
    if |args| == 0 then None
    else if args[0] == x then Some(0)
    else
      assert forall k :: 1 <= k < |args| ==> args[1..][k - 1] == args[k];
      match IndexOf(args[1..], x)
      case None => None
      case Some(i) => Some(i + 1)
  }

  /**
   * `getArg(name)`: nothing when `--name` is absent; otherwise the argument right after
   * the first `--name`, or the empty text when there is none.
   */
  function GetArg(args: seq<string>, name: string): (r: Option<string>)
    ensures r.None? <==> ("--" + name) !in args
    ensures r.Some? ==> r.value == "" || exists i :: 0 <= i < |args| - 1 && args[i] == "--" + name && args[i + 1] == r.value
  {
    match IndexOf(args, "--" + name)
    case None => None
    case Some(i) => if i + 1 < |args| then Some(args[i + 1]) else Some("")
  }

  /** `--name value` with no earlier `--name` gives `value`. */
  lemma GetArgOfPair(pre: seq<string>, name: string, value: string, post: seq<string>)
    requires ("--" + name) !in pre
    ensures GetArg(pre + ["--" + name, value] + post, name) == Some(value)
  {
    var args := pre + ["--" + name, value] + post;
    assert args[|pre|] == "--" + name && args[|pre| + 1] == value;
    assert forall k :: 0 <= k < |pre| ==> args[k] == pre[k];
  }

  /** A flag given last, with no value after it, reads as the empty text. */
  lemma GetArgOfTrailingFlag(pre: seq<string>, name: string)
    requires ("--" + name) !in pre
    ensures GetArg(pre + ["--" + name], name) == Some("")
  {
    var args := pre + ["--" + name];
    assert args[|pre|] == "--" + name;
    assert forall k :: 0 <= k < |pre| ==> args[k] == pre[k];
  }

  /** The check at line 25: the bump type is present, non-empty and one of the three kinds. */
  predicate ValidBumpType(bumpType: Option<string>) {
    bumpType.Some? && bumpType.value != "" && bumpType.value in ["major", "minor", "patch"]
  }

  /** The bump kind `--bump-type` names, if it names one. */
  function BumpKindArg(args: seq<string>): Option<BumpKind> {
    match GetArg(args, "bump-type")
    case None => None
    case Some(b) => KindOf(b)
  }

  /** The bump types the check lets through are exactly those `calculateNewVersion` accepts. */
  lemma ValidBumpTypeIsKind(args: seq<string>)
    ensures ValidBumpType(GetArg(args, "bump-type")) <==> BumpKindArg(args).Some?
  {
  }

  /** `getArg('description') || ''`. */
  function Description(args: seq<string>): string {
    match GetArg(args, "description")
    case None => ""
    case Some(d) => d
  }

  /** The description is empty when `--description` is absent or given last, and otherwise the argument after it. */
  lemma DescriptionOfArgs(pre: seq<string>, d: string, post: seq<string>)
    requires "--description" !in pre
    ensures Description(pre) == ""
    ensures Description(pre + ["--description"]) == ""
    ensures Description(pre + ["--description", d] + post) == d
  {
    assert "--" + "description" == "--description";
    GetArgOfTrailingFlag(pre, "description");
    GetArgOfPair(pre, "description", d, post);
  }

  // ---------------------------------------------------------------------------
  // exec (lines 40-47) and the two probes that rely on it
  // ---------------------------------------------------------------------------

  /** How a failing command run through `exec(command, true)` shows to its caller. */
  datatype ExecMode =
    | AsWritten       // the failure is caught inside `exec`, which returns '' (line 44)
    | FailureVisible  // the failure reaches the caller, as lines 122-129 and 215-224 expect

  /** Whether `exec(command, true)` throws, given whether the command succeeded. */
  predicate SilentExecThrows(mode: ExecMode, succeeded: bool) {
    mode == FailureVisible && !succeeded
  }

  function TagLookupCommand(version: string): string {
    "git rev-parse v" + version
  }

  const DiffCommand: string := "git diff --cached --quiet"

  /** `checkTagExists(version)`: true unless the silent `exec` of `git rev-parse` throws. */
  predicate CheckTagExists(mode: ExecMode, shell: string -> bool, version: string) {
    !SilentExecThrows(mode, shell(TagLookupCommand(version)))
  }

  /** Lines 215-221: the run takes the no-changes exit unless the silent `git diff` throws. */
  predicate NothingStaged(mode: ExecMode, shell: string -> bool) {
    !SilentExecThrows(mode, shell(DiffCommand))
  }

  /** As written, a tag is reported for every version, whatever `git rev-parse` answers. */
  lemma TagAlwaysFoundAsWritten(shell: string -> bool, version: string)
    ensures CheckTagExists(AsWritten, shell, version)
  {
  }

  /** Concretely: in a repository where `git rev-parse v1.2.4` fails, the tag v1.2.4 is still reported. */
  lemma TagFoundWhereLookupFails()
    ensures var noTags := (c: string) => c != TagLookupCommand("1.2.4");
            !noTags(TagLookupCommand("1.2.4")) && CheckTagExists(AsWritten, noTags, "1.2.4")
  {
  }

  /** When failures reach the caller, a tag is reported exactly when `git rev-parse` finds it. */
  lemma TagFoundIffLookupSucceeds(shell: string -> bool, version: string)
    ensures CheckTagExists(FailureVisible, shell, version) <==> shell(TagLookupCommand(version))
  {
  }

  /** As written, the staged changes are never seen, whatever `git diff --cached --quiet` answers. */
  lemma NothingStagedAsWritten(shell: string -> bool)
    ensures NothingStaged(AsWritten, shell)
  {
  }

  /** When failures reach the caller, changes are seen exactly when `git diff --cached --quiet` exits non-zero. */
  lemma StagedIffDiffFails(shell: string -> bool)
    ensures NothingStaged(FailureVisible, shell) <==> shell(DiffCommand)
  {
  }

  // ---------------------------------------------------------------------------
  // messages and command lines (lines 191-192, 212-242)
  // ---------------------------------------------------------------------------

  /** A title, followed by a blank line and the description when there is one. */
  function Message(title: string, description: string): string {
    if description != "" then title + "\n\n" + description else title
  }

  function CommitMessage(version: string, description: string): string {
    Message("chore: release v" + version, description)
  }

  function TagMessage(version: string, description: string): string {
    Message("Release v" + version, description)
  }

  /** Line by line a message is its title, then, when there is a description, a blank line and its lines. */
  lemma MessageLines(title: string, description: string)
    requires '\n' !in title
    ensures Split(Message(title, description), '\n')
            == [title] + (if description == "" then [] else [""] + Split(description, '\n'))
  {
    SplitWithoutSeparator(title, '\n');
    if description != "" {
      assert title + "\n\n" + description == title + ['\n'] + ("" + ['\n'] + description);
      SplitAround(title, "" + ['\n'] + description, '\n');
      SplitAround("", description, '\n');
      assert "" + ['\n'] + description == "" + "\n" + description;
      assert Split("", '\n') == [""];
    }
  }

  /** The commit message is titled `chore: release v<version>`, the tag message `Release v<version>`. */
  lemma ReleaseMessageLines(version: string, description: string)
    requires '\n' !in version
    ensures var body := if description == "" then [] else [""] + Split(description, '\n');
            && Split(CommitMessage(version, description), '\n') == ["chore: release v" + version] + body
            && Split(TagMessage(version, description), '\n') == ["Release v" + version] + body
  {
    NoNewlineInTitle("chore: release v", version);
    NoNewlineInTitle("Release v", version);
    MessageLines("chore: release v" + version, description);
    MessageLines("Release v" + version, description);
  }

  lemma NoNewlineInTitle(prefix: string, version: string)
    requires '\n' !in prefix && '\n' !in version
    ensures '\n' !in prefix + version
  {
  }

  /** `.replace(/"/g, '\\"')`: a backslash put before every double quote, everything else kept. */
  function Escape(s: string): (r: string)
    ensures |r| == |s| + Count(s, '"')
  {
    if |s| == 0 then "" else (if s[0] == '"' then "\\\"" else [s[0]]) + Escape(s[1..])
  }

  /** Reading an escaped text back: `\"` stands for `"`, every other character for itself. */
  function Unescape(s: string): string {
    if |s| == 0 then ""
    else if |s| >= 2 && s[0] == '\\' && s[1] == '"' then "\"" + Unescape(s[2..])
    else [s[0]] + Unescape(s[1..])
  }

  lemma EscapeNeverStartsWithQuote(s: string)
    ensures Escape(s) == "" || Escape(s)[0] != '"'
  {
  }

  /** The escaping loses nothing: reading it back gives the original text. */
  lemma {:induction false} UnescapeEscape(s: string)
    ensures Unescape(Escape(s)) == s
  {
    if |s| > 0 {
      var rest := Escape(s[1..]);
      UnescapeEscape(s[1..]);
      if s[0] == '"' {
        assert Escape(s) == "\\\"" + rest;
        assert (Escape(s))[2..] == rest;
      } else {
        EscapeNeverStartsWithQuote(s[1..]);
        assert Escape(s) == [s[0]] + rest;
        assert (Escape(s))[1..] == rest;
      }
      assert s == [s[0]] + s[1..];
    }
  }

  /** Every double quote of the escaped text has a backslash right before it. */
  lemma {:induction false} EscapedQuotesArePreceded(s: string)
    ensures forall k :: 0 <= k < |Escape(s)| && Escape(s)[k] == '"' ==> k > 0 && Escape(s)[k - 1] == '\\'
  {
    if |s| > 0 {
      EscapedQuotesArePreceded(s[1..]);
      var head := if s[0] == '"' then "\\\"" else [s[0]];
      var rest := Escape(s[1..]);
      assert Escape(s) == head + rest;
      forall k | 0 <= k < |Escape(s)| && Escape(s)[k] == '"' ensures k > 0 && Escape(s)[k - 1] == '\\' {
        if k >= |head| {
          assert Escape(s)[k] == rest[k - |head|];
          if k > |head| {
            assert Escape(s)[k - 1] == rest[k - 1 - |head|];
          }
        }
      }
    }
  }

  /** A text without double quotes is passed on unchanged. */
  lemma {:induction false} EscapeWithoutQuotes(s: string)
    requires '"' !in s
    ensures Escape(s) == s
  {
    if |s| > 0 {
      assert '"' !in s[1..] by {
        forall k | 0 <= k < |s| - 1 ensures s[1..][k] != '"' {
          assert s[1..][k] == s[k + 1];
        }
      }
      EscapeWithoutQuotes(s[1..]);
      assert s == [s[0]] + s[1..];
    }
  }

  const ConfigNameCommand: string := "git config user.name \"github-actions[bot]\""
  const ConfigEmailCommand: string := "git config user.email \"github-actions[bot]@users.noreply.github.com\""
  const AddCommand: string := "git add src/MyPackage/MyPackage.csproj CHANGELOG.md"
  const PushCommand: string := "git push"
  const PushTagsCommand: string := "git push --tags"

  function CommitCommand(version: string, description: string): string {
    "git commit -m \"" + Escape(CommitMessage(version, description)) + "\""
  }

  function TagCommand(version: string, description: string): string {
    "git tag -a v" + version + " -m \"" + Escape(TagMessage(version, description)) + "\""
  }

  // ---------------------------------------------------------------------------
  // the run (lines 189-250)
  // ---------------------------------------------------------------------------

  datatype Outcome = UsageError | ParseError | AlreadyReleased | NoChanges | Committed | Fatal

  datatype RunResult = RunResult(
    outcome: Outcome,
    exitCode: int,
    commands: seq<string>,           // every command handed to the shell, in order
    outputs: seq<(string, string)>,  // the `setOutput` calls, in order
    csproj: Option<string>,          // the project file as written, if it was
    changelog: Option<string>)       // CHANGELOG.md as written, if it was

  /** The run gets as far as the tag lookup: a valid bump type, git configured, and a version read. */
  predicate Prepared(args: seq<string>, shell: string -> bool, csproj: Option<string>) {
    && BumpKindArg(args).Some?
    && shell(ConfigNameCommand) && shell(ConfigEmailCommand)
    && csproj.Some? && ParseVersion(csproj.value).Some?
  }

  /** The version a prepared run releases. */
  function Target(args: seq<string>, shell: string -> bool, csproj: Option<string>): SemVer
    requires Prepared(args, shell, csproj)
  {
    Bump(ParseVersion(csproj.value).value, BumpKindArg(args).value)
  }

  /** The commands of lines 230-242, in the order they are issued. */
  function ReleaseCommands(version: string, description: string): seq<string> {
    [CommitCommand(version, description), TagCommand(version, description), PushCommand, PushTagsCommand]
  }

  /** The commands of lines 212-242, in the order they are issued. */
  function PublishCommands(version: string, description: string): seq<string> {
    [AddCommand, DiffCommand] + ReleaseCommands(version, description)
  }

  /**
   * How lines 212-246 end: the commands issued after the tag lookup, which are the publishing
   * commands up to the first that fails (the probe for staged changes ends the run instead
   * when nothing is staged), and the outcome they lead to.
   */
  predicate PublishTrace(mode: ExecMode, shell: string -> bool, version: string, description: string,
                         commands: seq<string>, outcome: Outcome) {
    && (outcome == NoChanges || outcome == Committed || outcome == Fatal)
    && 1 <= |commands| <= 6 && commands == PublishCommands(version, description)[..|commands|]
    && (|commands| >= 2 <==> shell(AddCommand))
    && (|commands| >= 3 <==> shell(AddCommand) && !NothingStaged(mode, shell))
    && (forall k :: 2 <= k < |commands| - 1 ==> shell(commands[k]))
    && (outcome == NoChanges <==> |commands| == 2)
    && (outcome == Committed <==> |commands| == 6 && shell(commands[5]))
    && (outcome == Fatal ==> !shell(commands[|commands| - 1]))
  }

  /** The trace is determined by the shell's answers: it can end in one way only. */
  lemma PublishTraceUnique(mode: ExecMode, shell: string -> bool, version: string, description: string,
                           c1: seq<string>, o1: Outcome, c2: seq<string>, o2: Outcome)
    requires PublishTrace(mode, shell, version, description, c1, o1)
    requires PublishTrace(mode, shell, version, description, c2, o2)
    ensures c1 == c2 && o1 == o2
  {
    PublishTraceNoShorter(mode, shell, version, description, c1, o1, c2, o2);
    PublishTraceNoShorter(mode, shell, version, description, c2, o2, c1, o1);
  }

  lemma PublishTraceNoShorter(mode: ExecMode, shell: string -> bool, version: string, description: string,
                              c1: seq<string>, o1: Outcome, c2: seq<string>, o2: Outcome)
    requires PublishTrace(mode, shell, version, description, c1, o1)
    requires PublishTrace(mode, shell, version, description, c2, o2)
    ensures |c1| >= |c2|
  {
    var all := PublishCommands(version, description);
    assert forall k :: 0 <= k < |c1| && k < |c2| ==> c1[k] == all[k] == c2[k];
  }

  /** Staging fails: the run stops at `git add`. */
  lemma TraceStopsAtAdd(mode: ExecMode, shell: string -> bool, version: string, description: string)
    requires !shell(AddCommand)
    ensures PublishTrace(mode, shell, version, description, PublishCommands(version, description)[..1], Fatal)
  {
  }

  /** Nothing staged: the run stops after the probe. */
  lemma TraceStopsAtDiff(mode: ExecMode, shell: string -> bool, version: string, description: string)
    requires shell(AddCommand) && NothingStaged(mode, shell)
    ensures PublishTrace(mode, shell, version, description, PublishCommands(version, description)[..2], NoChanges)
  {
  }

  /** Something staged: the trace continues with the commands commit, tag and push issued. */
  lemma TraceAfterProbe(mode: ExecMode, shell: string -> bool, version: string, description: string,
                        issued: seq<string>, released: bool)
    requires shell(AddCommand) && !NothingStaged(mode, shell)
    requires 1 <= |issued| <= 4 && issued == ReleaseCommands(version, description)[..|issued|]
    requires released <==> forall k :: 0 <= k < 4 ==> shell(ReleaseCommands(version, description)[k])
    requires released ==> |issued| == 4
    requires forall k :: 0 <= k < |issued| - 1 ==> shell(issued[k])
    requires !released ==> !shell(issued[|issued| - 1])
    ensures PublishCommands(version, description)[..2 + |issued|] == [AddCommand, DiffCommand] + issued
    ensures released ==> PublishTrace(mode, shell, version, description, PublishCommands(version, description), Committed)
    ensures !released ==>
              PublishTrace(mode, shell, version, description, PublishCommands(version, description)[..2 + |issued|], Fatal)
  {
    var all := PublishCommands(version, description);
    var commands := all[..2 + |issued|];
    assert commands == [AddCommand, DiffCommand] + issued;
    assert forall k :: 2 <= k < |commands| ==> commands[k] == issued[k - 2];
    assert released ==> issued == ReleaseCommands(version, description);
  }

  /** Every command after the tag lookup gives the answer a release needs. */
  predicate PublishSucceeds(shell: string -> bool, version: string, description: string) {
    && shell(AddCommand) && !shell(DiffCommand)
    && shell(CommitCommand(version, description)) && shell(TagCommand(version, description))
    && shell(PushCommand) && shell(PushTagsCommand)
  }

  /**
   * Lines 226-243: commit, tag, and push, each `exec` throwing on failure. Returns the
   * commands issued, which stop at the first that fails.
   */
  method CommitTagPush(shell: string -> bool, version: string, description: string)
    returns (issued: seq<string>, released: bool)
    ensures 1 <= |issued| <= 4 && issued == ReleaseCommands(version, description)[..|issued|]
    ensures released <==> forall k :: 0 <= k < 4 ==> shell(ReleaseCommands(version, description)[k])
    ensures released ==> |issued| == 4
    ensures forall k :: 0 <= k < |issued| - 1 ==> shell(issued[k])
    ensures !released ==> !shell(issued[|issued| - 1])
  {
    var steps := ReleaseCommands(version, description);
    issued, released := steps[..1], false;
    if !shell(steps[0]) {
      return;
    }
    issued := steps[..2];
    if !shell(steps[1]) {
      return;
    }
    issued := steps[..3];
    if !shell(steps[2]) {
      return;
    }
    issued := steps;
    if !shell(steps[3]) {
      return;
    }
    released := true;
  }

  /**
   * Lines 205-209: `updateCsproj` and `collectChangelog`, giving the two files as written
   * (CHANGELOG.md only when it is).
   */
  method WriteFiles(csproj: string, newVersion: string, isoTimestamp: string, listing: Option<seq<string>>,
                    read: string -> string, changelog: Option<string>)
    returns (updated: string, written: Option<string>)
    ensures updated == RewriteVersion(csproj, newVersion)
    ensures WrittenAsCollected(newVersion, isoTimestamp, listing, read, changelog, written)
  {
    updated := RewriteVersion(csproj, newVersion);
    var reported;
    written, reported := CollectChangelog(newVersion, isoTimestamp, listing, read, changelog);
  }

  /**
   * Lines 212-243: stage, probe for staged changes, commit, tag and push. Returns the
   * commands issued and how the run ends.
   */
  method Stage(mode: ExecMode, shell: string -> bool, version: string, description: string)
    returns (commands: seq<string>, outcome: Outcome)
    ensures PublishTrace(mode, shell, version, description, commands, outcome)
    ensures outcome == Committed <==> mode == FailureVisible && PublishSucceeds(shell, version, description)
  {
    var all := PublishCommands(version, description);
    if !shell(AddCommand) {
      TraceStopsAtAdd(mode, shell, version, description);
      return all[..1], Fatal;
    }
    if NothingStaged(mode, shell) {
      TraceStopsAtDiff(mode, shell, version, description);
      return all[..2], NoChanges;
    }
    var issued, released := CommitTagPush(shell, version, description);
    assert PublishSucceeds(shell, version, description) <==> !shell(DiffCommand) && released by {
      var steps := ReleaseCommands(version, description);
      assert steps[0] == CommitCommand(version, description) && steps[1] == TagCommand(version, description);
      assert steps[2] == PushCommand && steps[3] == PushTagsCommand;
    }
    TraceAfterProbe(mode, shell, version, description, issued, released);
    if !released {
      return all[..2 + |issued|], Fatal;
    }
    commands, outcome := all, Committed;
  }

  /**
   * Lines 205-246, after the tag lookup found no tag: rewrite the project file, collect the
   * changelog, then the git steps, reporting the outcome through `setOutput`.
   */
  method Publish(mode: ExecMode, shell: string -> bool, csproj: string, newVersion: string, description: string,
                 isoTimestamp: string, listing: Option<seq<string>>, read: string -> string,
                 changelog: Option<string>)
    returns (r: RunResult)
    ensures PublishTrace(mode, shell, newVersion, description, r.commands, r.outcome)
    ensures r.exitCode == (if r.outcome == Fatal then 1 else 0)
    ensures r.csproj == Some(RewriteVersion(csproj, newVersion))
    ensures WrittenAsCollected(newVersion, isoTimestamp, listing, read, changelog, r.changelog)
    ensures r.outcome == Fatal ==> r.outputs == []
    ensures r.outcome == NoChanges <==> shell(AddCommand) && NothingStaged(mode, shell)
    ensures r.outcome == NoChanges ==> r.outputs == [("version_committed", "false"), ("new_version", newVersion)]
    ensures r.outcome == Committed <==> mode == FailureVisible && PublishSucceeds(shell, newVersion, description)
    ensures r.outcome == Committed ==>
              && r.commands == PublishCommands(newVersion, description)
              && r.outputs == [("version_committed", "true"), ("new_version", newVersion)]
  {
    var updated, written := WriteFiles(csproj, newVersion, isoTimestamp, listing, read, changelog);
    var commands, outcome := Stage(mode, shell, newVersion, description);
    var outputs := match outcome
      case Committed => [("version_committed", "true"), ("new_version", newVersion)]
      case NoChanges => [("version_committed", "false"), ("new_version", newVersion)]
      case _ => [];
    r := RunResult(outcome, if outcome == Fatal then 1 else 0, commands, outputs, Some(updated), written);
  }

  /**
   * Lines 197-246, once the version `target` is known: look up its tag and, when there is
   * none, publish it.
   */
  method TagAndPublish(mode: ExecMode, shell: string -> bool, csproj: string, target: SemVer, description: string,
                       isoTimestamp: string, listing: Option<seq<string>>, read: string -> string,
                       changelog: Option<string>)
    returns (r: RunResult)
    requires ParseVersion(csproj).Some?
    ensures |r.commands| >= 1 && r.commands[0] == TagLookupCommand(Format(target))
    ensures r.outcome == AlreadyReleased <==> CheckTagExists(mode, shell, Format(target))
    ensures r.outcome == AlreadyReleased ==>
              && r.commands == [TagLookupCommand(Format(target))] && r.exitCode == 0
              && r.outputs == [("already_released", "true"), ("new_version", Format(target))]
              && r.csproj.None? && r.changelog.None?
    ensures r.outcome == Committed ==> r.commands == [TagLookupCommand(Format(target))] + PublishCommands(Format(target), description)
    ensures r.outcome == NoChanges <==>
              !CheckTagExists(mode, shell, Format(target)) && shell(AddCommand) && NothingStaged(mode, shell)
    ensures mode == AsWritten ==> r.outcome == AlreadyReleased
    ensures mode == FailureVisible ==>
              (r.outcome == Committed <==>
                 !shell(TagLookupCommand(Format(target))) && PublishSucceeds(shell, Format(target), description))
    ensures !CheckTagExists(mode, shell, Format(target)) ==>
              && PublishTrace(mode, shell, Format(target), description, r.commands[1..], r.outcome)
              && r.exitCode == (if r.outcome == Fatal then 1 else 0)
              && r.csproj == Some(RewriteVersion(csproj, Format(target)))
              && ParseVersion(r.csproj.value) == Some(target)
              && WrittenAsCollected(Format(target), isoTimestamp, listing, read, changelog, r.changelog)
              && (r.outcome == Fatal ==> r.outputs == [])
              && (r.outcome == NoChanges ==> r.outputs == [("version_committed", "false"), ("new_version", Format(target))])
              && (r.outcome == Committed ==> r.outputs == [("version_committed", "true"), ("new_version", Format(target))])
              && (r.outcome == Committed <==> mode == FailureVisible && PublishSucceeds(shell, Format(target), description))
  {
    var newVersion := Format(target);
    if CheckTagExists(mode, shell, newVersion) {
      return RunResult(AlreadyReleased, 0, [TagLookupCommand(newVersion)],
                       [("already_released", "true"), ("new_version", newVersion)], None, None);
    }
    ParsedMeansRewritable(csproj);
    RewriteThenParse(csproj, target);
    r := Publish(mode, shell, csproj, newVersion, description, isoTimestamp, listing, read, changelog);
    assert ([TagLookupCommand(newVersion)] + r.commands)[1..] == r.commands;
    r := r.(commands := [TagLookupCommand(newVersion)] + r.commands);
  }

  lemma PrependCommands(before: seq<string>, after: seq<string>)
    requires |before| == 2 && |after| >= 1
    ensures (before + after)[..3] == [before[0], before[1], after[0]] && (before + after)[3..] == after[1..]
    ensures before + after == [before[0], before[1], after[0]] + after[1..]
    ensures |after| == 1 ==> before + after == [before[0], before[1], after[0]]
  {
    assert after == [after[0]] + after[1..];
  }

  /**
   * The script up to reading the version: the bump type check (lines 22-30), the git
   * configuration (lines 191-192) and `getCurrentVersion` (line 194). Returns the result of
   * a run that stops on the way, or nothing when the run is prepared to release.
   */
  method Prepare(args: seq<string>, shell: string -> bool, csproj: Option<string>)
    returns (stopped: Option<RunResult>)
    ensures stopped.None? <==> Prepared(args, shell, csproj)
    ensures stopped.Some? ==>
              && stopped.value.exitCode == 1 && stopped.value.outputs == []
              && stopped.value.csproj.None? && stopped.value.changelog.None?
              && stopped.value.outcome in {UsageError, Fatal, ParseError}
    ensures stopped.Some? && stopped.value.outcome == UsageError <==> !ValidBumpType(GetArg(args, "bump-type"))
    ensures stopped.Some? && stopped.value.outcome == UsageError ==> stopped.value.commands == []
    ensures ValidBumpType(GetArg(args, "bump-type")) && !shell(ConfigNameCommand) ==>
              stopped == Some(RunResult(Fatal, 1, [ConfigNameCommand], [], None, None))
    ensures ValidBumpType(GetArg(args, "bump-type")) && shell(ConfigNameCommand) && !shell(ConfigEmailCommand) ==>
              stopped == Some(RunResult(Fatal, 1, [ConfigNameCommand, ConfigEmailCommand], [], None, None))
    ensures ValidBumpType(GetArg(args, "bump-type")) && shell(ConfigNameCommand) && shell(ConfigEmailCommand)
            && csproj.None? ==>
              stopped == Some(RunResult(Fatal, 1, [ConfigNameCommand, ConfigEmailCommand], [], None, None))
    ensures stopped.Some? && stopped.value.outcome == ParseError <==>
              && BumpKindArg(args).Some? && shell(ConfigNameCommand) && shell(ConfigEmailCommand)
              && csproj.Some? && ParseVersion(csproj.value).None?
    ensures stopped.Some? && stopped.value.outcome == ParseError ==>
              stopped.value.commands == [ConfigNameCommand, ConfigEmailCommand]
  {
    var bumpType := GetArg(args, "bump-type");
    ValidBumpTypeIsKind(args);
    if !ValidBumpType(bumpType) {
      return Some(RunResult(UsageError, 1, [], [], None, None));
    }
    if !shell(ConfigNameCommand) {
      return Some(RunResult(Fatal, 1, [ConfigNameCommand], [], None, None));
    }
    var commands := [ConfigNameCommand, ConfigEmailCommand];
    if !shell(ConfigEmailCommand) {
      return Some(RunResult(Fatal, 1, commands, [], None, None));
    }
    if csproj.None? {
      return Some(RunResult(Fatal, 1, commands, [], None, None));
    }
    if ParseVersion(csproj.value).None? {
      return Some(RunResult(ParseError, 1, commands, [], None, None));
    }
    stopped := None;
  }

  /**
   * The script from argument parsing to exit. `csproj` is the project file, absent when it
   * cannot be read; the changelog inputs are those of `collectChangelog`.
   */
  method Run(mode: ExecMode, args: seq<string>, shell: string -> bool, csproj: Option<string>,
             isoTimestamp: string, listing: Option<seq<string>>, read: string -> string,
             changelog: Option<string>)
    returns (r: RunResult)
    // the exit code follows the outcome
    ensures r.exitCode == (if r.outcome in {AlreadyReleased, NoChanges, Committed} then 0 else 1)
    ensures r.outcome == Fatal ==> r.outputs == []
    // a bad bump type stops the run before any command
    ensures r.outcome == UsageError <==> !ValidBumpType(GetArg(args, "bump-type"))
    ensures r.outcome == UsageError ==> r.commands == [] && r.outputs == []
    // the git configuration commands, then reading the project file
    ensures ValidBumpType(GetArg(args, "bump-type")) && !shell(ConfigNameCommand) ==>
              r.outcome == Fatal && r.commands == [ConfigNameCommand]
    ensures ValidBumpType(GetArg(args, "bump-type")) && shell(ConfigNameCommand) && !shell(ConfigEmailCommand) ==>
              r.outcome == Fatal && r.commands == [ConfigNameCommand, ConfigEmailCommand]
    ensures ValidBumpType(GetArg(args, "bump-type")) && shell(ConfigNameCommand) && shell(ConfigEmailCommand)
            && csproj.None? ==>
              r.outcome == Fatal && r.commands == [ConfigNameCommand, ConfigEmailCommand]
    ensures r.outcome == ParseError <==>
              && BumpKindArg(args).Some? && shell(ConfigNameCommand) && shell(ConfigEmailCommand)
              && csproj.Some? && ParseVersion(csproj.value).None?
    ensures r.outcome == ParseError ==> r.commands == [ConfigNameCommand, ConfigEmailCommand] && r.outputs == []
    // the tag lookup
    ensures r.outcome == AlreadyReleased <==>
              Prepared(args, shell, csproj) && CheckTagExists(mode, shell, Format(Target(args, shell, csproj)))
    ensures r.outcome == AlreadyReleased ==>
              var v := Format(Target(args, shell, csproj));
              && r.commands == [ConfigNameCommand, ConfigEmailCommand, TagLookupCommand(v)]
              && r.outputs == [("already_released", "true"), ("new_version", v)]
    // nothing is written unless the run gets past the tag lookup
    ensures !(Prepared(args, shell, csproj) && !CheckTagExists(mode, shell, Format(Target(args, shell, csproj)))) ==>
              r.csproj.None? && r.changelog.None?
    // past the tag lookup: the files are written, then the git steps run up to the first failure
    ensures Prepared(args, shell, csproj) && !CheckTagExists(mode, shell, Format(Target(args, shell, csproj))) ==>
              var v := Format(Target(args, shell, csproj));
              && |r.commands| >= 4
              && r.commands[..3] == [ConfigNameCommand, ConfigEmailCommand, TagLookupCommand(v)]
              && PublishTrace(mode, shell, v, Description(args), r.commands[3..], r.outcome)
              && r.csproj == Some(RewriteVersion(csproj.value, v))
              && WrittenAsCollected(v, isoTimestamp, listing, read, changelog, r.changelog)
    ensures r.outcome == NoChanges <==>
              && Prepared(args, shell, csproj) && !CheckTagExists(mode, shell, Format(Target(args, shell, csproj)))
              && shell(AddCommand) && NothingStaged(mode, shell)
    ensures r.outcome == NoChanges ==>
              r.outputs == [("version_committed", "false"), ("new_version", Format(Target(args, shell, csproj)))]
    // as written, a run that reads a version always ends as already released, writing nothing
    ensures mode == AsWritten ==> r.outcome != NoChanges && r.outcome != Committed
    ensures mode == AsWritten ==> r.csproj.None? && r.changelog.None?
    ensures mode == AsWritten && Prepared(args, shell, csproj) ==> r.outcome == AlreadyReleased
    // with failures visible, the release is committed exactly when every step succeeds
    ensures mode == FailureVisible ==>
              (r.outcome == Committed <==>
                 && Prepared(args, shell, csproj)
                 && !shell(TagLookupCommand(Format(Target(args, shell, csproj))))
                 && PublishSucceeds(shell, Format(Target(args, shell, csproj)), Description(args)))
    ensures r.outcome == Committed ==>
              var v := Format(Target(args, shell, csproj));
              && r.commands == [ConfigNameCommand, ConfigEmailCommand, TagLookupCommand(v)] + PublishCommands(v, Description(args))
              && r.outputs == [("version_committed", "true"), ("new_version", v)]
    // the project file written reads back as the released version
    ensures r.csproj.Some? ==>
              && Prepared(args, shell, csproj)
              && r.csproj.value == RewriteVersion(csproj.value, Format(Target(args, shell, csproj)))
              && ParseVersion(r.csproj.value) == Some(Target(args, shell, csproj))
  {
    var stopped := Prepare(args, shell, csproj);
    if stopped.Some? {
      return stopped.value;
    }
    var current := ParseVersion(csproj.value).value;
    var calculated := CalculateNewVersion(current, GetArg(args, "bump-type").value);
    var target := Target(args, shell, csproj);
    assert calculated == Ok(Format(target));
    var newVersion := calculated.value;

    var commands := [ConfigNameCommand, ConfigEmailCommand];
    var tail := TagAndPublish(mode, shell, csproj.value, target, Description(args), isoTimestamp, listing, read, changelog);
    PrependCommands(commands, tail.commands);
    r := tail.(commands := commands + tail.commands);
  }
}
