# C# package template: release script, file-size check, calculator and package version

This project models, in Dafny, the parts of a C# package template that hold logic:

- **The release script** (`scripts/version-and-commit.mjs`).
  - It reads `<Version>X.Y.Z</Version>` from the project file and bumps it by `major`, `minor` or `patch`.
  - It checks whether a tag `v<new>` exists and rewrites the project file.
  - It collects changelog fragments from `changelog.d` into a new CHANGELOG.md entry.
  - It stages, commits, tags and pushes, and reports `setOutput` pairs.
  - Modules: `ReleaseVersion` (parse, bump, rewrite), `Changelog` (`collectChangelog`) and `Release` (arguments, `exec`, messages, the run).
- **The file-size check** (`scripts/check-file-size.mjs`), module `FileSize`.
  - It walks the working directory and skips every path that contains an excluded pattern.
  - It collects the `.cs` files and reports each file of more than 1000 lines.
  - It exits 1 when there is any such file.
- **`Calculator.Add` and `Calculator.Multiply`** on C# `long`, module `Calculator`. Overflow wraps around in two's complement.
- **`PackageInfo.Version`**, module `PackageInfo`. It is the assembly's informational version cut at the first `+`, or `0.0.0` when there is none.

`Text` holds the JavaScript string operations the scripts use: `split`, `join`, `trim`, `includes` and the default `sort` order. `Wrappers` holds `Option` and `Result`. `Filtering` states a filter followed by a map through the indices of the elements kept. It is used for the fragments kept and for the files over the line limit.

The outside world is passed in as values:

- **The shell** is a function from a command line to whether it exits with status 0.
- **The file system** is passed in as data:
  - the project file's text, or none when it cannot be read;
  - the listing of `changelog.d`, or none when the directory is missing;
  - a `read` function from path to contents;
  - CHANGELOG.md's text, or none;
  - for the size check, the directory tree as a datatype.
- **The clock** is the ISO timestamp string.
- **Reflection** is the attribute as an `Option`.

`Release.Run` returns a `RunResult` holding:
- the outcome and the exit code;
- every command issued, in order;
- the `setOutput` pairs;
- the files it wrote.

**The model follows the code as written, including where it defeats its own intent.**
- The catch blocks at scripts/version-and-commit.mjs:122-129 and 215-224 were written to treat a failed command as "no tag" and as "changes staged".
- But `exec(command, true)` catches every failure itself and returns `''` (scripts/version-and-commit.mjs:40-46). So `checkTagExists` never reaches its `catch` and returns true for every version.
- Likewise the `git diff --cached --quiet` probe always takes the no-changes branch (scripts/version-and-commit.mjs:215-221).
- `Release.ExecMode` makes this explicit. `AsWritten` is the code. `FailureVisible` is the behaviour those catch blocks were written for.
- `Release.Run` is proved for both modes (see "## Findings").

## Model

| member | source | states |
|---|---|---|
| Text.Split | scripts/check-file-size.mjs:61 | `split(sep)` gives one more piece than there are separators, and no piece contains the separator |
| Text.JoinSplit | scripts/version-and-commit.mjs:166-178 | joining the split lines with `'\n'` gives back the original text |
| Text.SplitJoin | scripts/version-and-commit.mjs:166-178 | splitting lines that hold no separator after joining them gives back the lines |
| Text.SplitAround | scripts/version-and-commit.mjs:166 | splitting `a + sep + b` gives the pieces of `a` followed by the pieces of `b` |
| Text.SplitFirstPiece | scripts/version-and-commit.mjs:161 | `split(sep)[0]` is a prefix of the text, followed by the separator or by the end |
| Text.SplitOfJoin | scripts/version-and-commit.mjs:178 | splitting joined parts gives the pieces of each part, in order |
| Text.JoinEmptyIff | scripts/version-and-commit.mjs:155-157 | a join of non-empty parts is empty exactly when there are no parts |
| Text.Trim | scripts/version-and-commit.mjs:153 | `trim()` is empty exactly when the text is all white space; otherwise it neither starts nor ends with white space |
| Text.TrimIsPadded | scripts/version-and-commit.mjs:153 | what `trim()` keeps is a slice of the text with only white space before it and only white space after it |
| Text.TrimStart | scripts/version-and-commit.mjs:153 | the removed front is all white space and the rest does not start with white space |
| Text.TrimEnd | scripts/version-and-commit.mjs:153 | the removed tail is all white space and the rest does not end with white space |
| Text.LexReflexive | scripts/version-and-commit.mjs:152 | the `sort()` order is reflexive |
| Text.LexTotal | scripts/version-and-commit.mjs:152 | the `sort()` order relates any two names |
| Text.LexAntisymmetric | scripts/version-and-commit.mjs:152 | names ordered both ways are equal |
| Text.LexTransitive | scripts/version-and-commit.mjs:152 | the `sort()` order is transitive |
| Text.ContainsInExtension | scripts/check-file-size.mjs:21 | a text that extends another still contains each of its substrings |
| ReleaseVersion.Decimal | scripts/version-and-commit.mjs:93-97 | a number in a template literal is a non-empty run of digits with no leading zero (except `0` itself) that `parseInt` reads back as the number; with DecimalUnique this fixes the text `${n}` prints |
| ReleaseVersion.DecimalUnique | scripts/version-and-commit.mjs:93-97 | a digit string without a leading zero that reads back as n is exactly the text `${n}` prints |
| ReleaseVersion.LeadingZeroIgnored | scripts/version-and-commit.mjs:76-78 | `parseInt` of a digit run ignores a leading zero |
| ReleaseVersion.Bump | scripts/version-and-commit.mjs:91-97 | every bump gives a version of strictly higher precedence (Semantic Versioning 2.0.0, items 6-8 and 11) |
| ReleaseVersion.BumpExamples | scripts/version-and-commit.mjs:92-97 | 1.2.3 bumps to 2.0.0, 1.3.0 and 1.2.4 |
| ReleaseVersion.CalculateNewVersion | scripts/version-and-commit.mjs:88-101 | succeeds exactly for `major`, `minor` and `patch` with the formatted bumped version; any other kind gives the error `Invalid bump type: <kind>` |
| ReleaseVersion.NumericAt | scripts/version-and-commit.mjs:68 | a match of `<Version>(\d+)\.(\d+)\.(\d+)<\/Version>` at a position: the opening tag, three maximal digit runs split by dots, then the closing tag |
| ReleaseVersion.ElementAt | scripts/version-and-commit.mjs:110 | a match of `<Version>[^<]+<\/Version>` at a position is the opening tag, a non-empty run free of `<`, then the closing tag; the match ends just past that closing tag |
| ReleaseVersion.ElementAtMatches | scripts/version-and-commit.mjs:110 | conversely, an opening tag, a non-empty run free of `<` and a closing tag always match, ending past that closing tag |
| ReleaseVersion.FirstNumeric | scripts/version-and-commit.mjs:68 | the leftmost position where the numeric pattern matches; it matches nowhere before it |
| ReleaseVersion.FirstElement | scripts/version-and-commit.mjs:110 | the leftmost position where the rewrite pattern matches; it matches nowhere before it |
| ReleaseVersion.ParseVersion | scripts/version-and-commit.mjs:66-80 | no version exactly when the numeric pattern matches nowhere; otherwise the version is the groups of a match |
| ReleaseVersion.ParseVersionAt | scripts/version-and-commit.mjs:68-79 | the version read is the one of the leftmost numeric match |
| ReleaseVersion.MatchGroupsAreDigits | scripts/version-and-commit.mjs:68-78 | the three captured groups are non-empty digit runs, as `(\d+)` requires before `parseInt` |
| ReleaseVersion.NumericIsElement | scripts/version-and-commit.mjs:68 | every match of the numeric pattern is a match of the rewrite pattern with the same extent |
| ReleaseVersion.RewriteVersion | scripts/version-and-commit.mjs:107-113 | a project file with no `<Version>` element is left unchanged |
| ReleaseVersion.RewriteShape | scripts/version-and-commit.mjs:109-112 | only the leftmost element is replaced: the text before it, the new element, then the text after it |
| ReleaseVersion.RewriteThenParse | scripts/version-and-commit.mjs:107-113 | after any version is written over the leftmost element, reading the file gives exactly that version |
| ReleaseVersion.ParsedMeansRewritable | scripts/version-and-commit.mjs:66-113 | whenever a version can be read there is an element to rewrite, and it is not after the element read |
| ReleaseVersion.RewriteMissesLaterNumericElement | scripts/version-and-commit.mjs:109-112 | when the leftmost element is not the numeric one, the rewrite keeps the numeric element and everything after it unchanged |
| ReleaseVersion.PatternsCanDisagree | scripts/version-and-commit.mjs:68-110 | a first element with a non-numeric value is the one the rewrite replaces, while the version is read from the next element |
| ReleaseVersion.NumericAtWritten | scripts/version-and-commit.mjs:111 | a written `<Version>M.m.p</Version>` matches the numeric pattern there and holds that version |
| ReleaseVersion.NewVersionReadsBack | scripts/version-and-commit.mjs:88-111 | the text `calculateNewVersion` returns, written as an element, reads back as the bumped version |
| ReleaseVersion.FormattedElementReadsBack | scripts/version-and-commit.mjs:111 | an element holding a formatted version reads back as that version |
| ReleaseVersion.FormatInjective | scripts/version-and-commit.mjs:93-97 | two versions written as the same text are the same version |
| Changelog.FragmentNames | scripts/version-and-commit.mjs:143-145 | exactly the names ending in `.md` other than `README.md` are kept, each as often as listed |
| Changelog.InsertByName | scripts/version-and-commit.mjs:152 | inserting into a sorted list keeps it sorted and adds exactly that name |
| Changelog.SortByName | scripts/version-and-commit.mjs:152 | `sort()` returns its input in ascending order, as a permutation |
| Changelog.SortedUnique | scripts/version-and-commit.mjs:152 | two ascending arrangements of the same names are the same sequence |
| Changelog.FragmentOrder | scripts/version-and-commit.mjs:143-152 | the fragments are read in ascending order, and a name is among them exactly when it is listed and is a fragment name |
| Changelog.FragmentOrderIgnoresListingOrder | scripts/version-and-commit.mjs:143-152 | the order the directory lists its files in does not change the fragment order |
| Changelog.FragmentTexts | scripts/version-and-commit.mjs:153-154 | the trimmed texts kept are all non-empty and at most one per file; there are none exactly when every fragment is blank |
| Changelog.FragmentTextsOne | scripts/version-and-commit.mjs:153-154 | one fragment contributes its trimmed text, or nothing when it is blank |
| Changelog.FragmentTextsAppend | scripts/version-and-commit.mjs:153-154 | the texts of two consecutive lists of fragments are the texts of the first, then those of the second; with the row above this determines the texts: one trimmed text per non-blank fragment, in order |
| Changelog.AllBlankEach | scripts/version-and-commit.mjs:154 | a list of fragments is blank exactly when each fragment in it is blank |
| Changelog.Fragments | scripts/version-and-commit.mjs:151-159 | the aggregated text is empty exactly when every fragment is blank after trimming |
| Changelog.FragmentsAppend | scripts/version-and-commit.mjs:151-155 | the aggregated text of two consecutive lists is that of each list, separated by one blank line when both are non-empty |
| Changelog.FragmentsInOrder | scripts/version-and-commit.mjs:151-155 | the aggregated text is the trimmed texts of exactly the fragments that are not blank, one per fragment and in name order, joined with one blank line between them |
| Changelog.OneFragment | scripts/version-and-commit.mjs:153-155 | one non-blank fragment is taken trimmed, as it is |
| Changelog.TwoFragments | scripts/version-and-commit.mjs:153-155 | two non-blank fragments are separated by one blank line |
| Changelog.DateOf | scripts/version-and-commit.mjs:161 | the date is the part of the timestamp before its first `T` |
| Changelog.EntryLines | scripts/version-and-commit.mjs:162 | line by line the entry is: a blank line, the heading `## [v] - date`, a blank line, the fragment lines, then an empty line |
| Changelog.FirstHeading | scripts/version-and-commit.mjs:169-174 | the index of the first line starting with `## [`; no earlier line does |
| Changelog.InsertEntry | scripts/version-and-commit.mjs:164-182 | the scan-and-splice loop gives the content with the entry spliced in before the first heading, or appended when there is none |
| Changelog.EntryBeforeFirstHeading | scripts/version-and-commit.mjs:176-178 | with a heading present, every original line is kept in order, and the entry's lines come right before the first heading |
| Changelog.SplitOfSplice | scripts/version-and-commit.mjs:177-178 | splitting lines that were joined around an inserted text gives the lines around that text's pieces |
| Changelog.EntryAppended | scripts/version-and-commit.mjs:179-181 | with no heading, the original lines are followed by the entry's lines |
| Changelog.HeadingFollowsEntry | scripts/version-and-commit.mjs:162-178 | the new release heading goes where the first heading was, and that heading now follows the entry |
| Changelog.CollectChangelog | scripts/version-and-commit.mjs:135-187 | the count of fragment files is reported exactly when `changelog.d` exists and some fragment is not blank; CHANGELOG.md is written exactly when, in addition, it exists, and it then holds the new entry inserted |
| Release.IndexOf | scripts/version-and-commit.mjs:17 | `indexOf` gives the first index holding the value, or none when no index holds it |
| Release.GetArg | scripts/version-and-commit.mjs:16-20 | null exactly when the flag is absent; otherwise `''` or the argument that follows the flag |
| Release.GetArgOfPair | scripts/version-and-commit.mjs:16-20 | `--name value` with no earlier `--name` gives `value` |
| Release.GetArgOfTrailingFlag | scripts/version-and-commit.mjs:19 | a flag given last gives `''` |
| Release.DescriptionOfArgs | scripts/version-and-commit.mjs:23 | the description is empty when `--description` is absent or given last, and otherwise is the argument that follows it |
| Release.ValidBumpTypeIsKind | scripts/version-and-commit.mjs:25-30 | the bump types the check accepts are exactly those `calculateNewVersion` accepts, so its throw cannot occur in a run |
| Release.TagAlwaysFoundAsWritten | scripts/version-and-commit.mjs:122-129 | as written, a tag is reported for every version, whatever `git rev-parse` answers |
| Release.TagFoundWhereLookupFails | scripts/version-and-commit.mjs:122-129 | in a repository where `git rev-parse v1.2.4` fails, the tag v1.2.4 is still reported |
| Release.TagFoundIffLookupSucceeds | scripts/version-and-commit.mjs:122-129 | when failures reach the caller, a tag is reported exactly when `git rev-parse` succeeds |
| Release.NothingStagedAsWritten | scripts/version-and-commit.mjs:215-224 | as written, the no-changes branch is taken whatever `git diff --cached --quiet` answers |
| Release.StagedIffDiffFails | scripts/version-and-commit.mjs:215-224 | when failures reach the caller, changes are seen exactly when the diff exits non-zero |
| Release.MessageLines | scripts/version-and-commit.mjs:227-236 | a message is its title line, then a blank line and the description's lines exactly when the description is non-empty |
| Release.ReleaseMessageLines | scripts/version-and-commit.mjs:227-236 | the commit message is titled `chore: release v<version>` and the tag message `Release v<version>`, each followed by a blank line and the description's lines exactly when there is a description |
| Release.Escape | scripts/version-and-commit.mjs:230 | escaping adds one character per double quote |
| Release.UnescapeEscape | scripts/version-and-commit.mjs:230 | escaping loses nothing: reading `\"` back as `"` gives the original message |
| Release.EscapedQuotesArePreceded | scripts/version-and-commit.mjs:230 | every double quote in the escaped text has a backslash right before it |
| Release.EscapeWithoutQuotes | scripts/version-and-commit.mjs:237 | a message without double quotes is passed on unchanged |
| Release.CommitTagPush | scripts/version-and-commit.mjs:226-243 | commit, tag, push and push of tags are issued in order up to the first that fails: every command issued but the last succeeded, and the last failed unless all four succeeded; the release succeeds exactly when all four do |
| Release.WriteFiles | scripts/version-and-commit.mjs:205-209 | the project file is rewritten with the new version; CHANGELOG.md is written exactly when `changelog.d` exists, CHANGELOG.md exists and some fragment is not blank, and then holds the entry for the new version with the fragments in name order |
| Release.PublishTraceUnique | scripts/version-and-commit.mjs:212-243 | the commands issued after the tag lookup and the way the run ends are determined by the shell's answers |
| Release.Stage | scripts/version-and-commit.mjs:212-243 | stage, probe, commit, tag and push issue the publishing commands up to the first that fails (the probe ends the run when nothing is staged); committed exactly when failures are visible and every step succeeds |
| Release.Publish | scripts/version-and-commit.mjs:205-246 | the files are written as above and the commands are those of the git steps. Ends "no changes" exactly when staging succeeds and the probe sees nothing staged, "committed" exactly when failures are visible and every step succeeds, "fatal" otherwise. Gives the outputs of each case |
| Release.Prepare | scripts/version-and-commit.mjs:189-194 | the run stops before the tag lookup exactly when the bump type is invalid (the check at lines 25-30: usage error, no command), a git configuration command fails or the project file is missing (fatal, the configuration commands issued so far), or no version can be read (parse error) |
| Release.TagAndPublish | scripts/version-and-commit.mjs:197-246 | "already released" exactly when the tag lookup reports the tag, after that one command and writing nothing; otherwise the project file written reads back as the new version and the rest is as in `Release.Publish` |
| Release.Run | scripts/version-and-commit.mjs:22-250 | usage error exactly for a bad bump type, before any command. Fatal with one or two commands when a git configuration command fails or the project file is missing. Parse error exactly when no version can be read. "Already released" exactly when the tag lookup reports the tag, with three commands; as written this is every run that reads a version. Otherwise the project file is rewritten with the bumped version, CHANGELOG.md is written as collected, and the git steps run up to the first failure, "no changes" exactly when staging succeeds and nothing is seen staged. With failures visible, it commits exactly when every step succeeds. A project file written reads back as the bumped version |
| FileSize.CabinetIsExcluded | scripts/check-file-size.mjs:20-22 | a path that only contains a pattern inside a longer name, such as `cabinet`, is excluded |
| FileSize.UnderExcludedIsExcluded | scripts/check-file-size.mjs:20-22 | every path under an excluded directory is itself excluded |
| FileSize.FileCollector.constructor | scripts/check-file-size.mjs:30 | the collector starts with no files |
| FileSize.FileCollector.WalkDir | scripts/check-file-size.mjs:32-48 | the walk appends to `files` exactly the paths the recursive walk specification gives |
| FileSize.WalkAppend | scripts/check-file-size.mjs:35-47 | the walk of two consecutive listings is the walk of the first, then the walk of the second |
| FileSize.WalkInListingOrder | scripts/check-file-size.mjs:35-47 | depth-first in listing order: everything under an entry comes before anything under later entries |
| FileSize.VisitWithinWalk | scripts/check-file-size.mjs:35-47 | whatever is found under one listed entry is found by the walk of the listing |
| FileSize.WalkCollectsFile | scripts/check-file-size.mjs:36-46 | a listed `.cs` file whose path is not excluded is collected |
| FileSize.WalkEntersDirectory | scripts/check-file-size.mjs:38-43 | a listed directory whose path is not excluded is entered, and everything its walk finds is collected |
| FileSize.WalkPathsValid | scripts/check-file-size.mjs:36-46 | every path collected lies under the directory, is not excluded, and ends in `.cs` |
| FileSize.VisitPathsValid | scripts/check-file-size.mjs:36-46 | the same holds for the paths collected under one entry |
| FileSize.ExcludedDirectoryYieldsNothing | scripts/check-file-size.mjs:38-43 | nothing is collected under a directory whose path is excluded |
| FileSize.CountLines | scripts/check-file-size.mjs:59-62 | the line count is the number of line feeds plus one, so an empty file has one line |
| FileSize.ViolationsAreLongFiles | scripts/check-file-size.mjs:71-79 | every violation has more than 1000 lines; there are no violations exactly when every file has at most 1000 lines |
| FileSize.ViolationsOfOne | scripts/check-file-size.mjs:72-78 | one file gives one violation, with its relative path and line count, exactly when it has more than 1000 lines |
| FileSize.ViolationsOfAppend | scripts/check-file-size.mjs:71-79 | the violations of two consecutive lists of files are those of the first, then those of the second; with the row above this determines the violations: one per long file, in file order |
| FileSize.ViolationsAreExactlyLongFiles | scripts/check-file-size.mjs:71-79 | a violation is reported exactly for each file of more than 1000 lines, carrying its relative path and its line count |
| FileSize.ViolationsInFileOrder | scripts/check-file-size.mjs:71-79 | the violations are exactly the files of more than 1000 lines, one per file and in file order, each with its relative path and line count |
| FileSize.ViolationsStep | scripts/check-file-size.mjs:71-79 | each file checked adds a violation for itself at the end exactly when it has more than 1000 lines |
| FileSize.NoViolationsIffAllShort | scripts/check-file-size.mjs:81-92 | there are no violations exactly when every collected file has at most 1000 lines |
| FileSize.ExactlyAtLimitPasses | scripts/check-file-size.mjs:73 | a file of exactly 1000 lines is not a violation |
| FileSize.CheckFileSize | scripts/check-file-size.mjs:64-93 | the violations are those of the collected files in walk order; the exit code is 0 exactly when every file has at most 1000 lines, and 1 otherwise |
| FileSize.ExcludedWorkingDirectoryChecksNothing | scripts/check-file-size.mjs:65-79 | a working directory whose own path contains a pattern has nothing to check |
| Calculator.Wrap | src/MyPackage/Calculator.cs:23-37 | the reduction to 64 bits keeps the bit pattern, and keeps the value whenever it is in range |
| Calculator.WrapUnique | src/MyPackage/Calculator.cs:23-37 | each `long` stands for exactly one residue modulo 2^64, so the wrapped result is determined |
| Calculator.WrapRespectsCongruence | src/MyPackage/Calculator.cs:23-37 | exact results that agree modulo 2^64 give the same `long` |
| Calculator.Add | src/MyPackage/Calculator.cs:23 | the sum is exact whenever it fits in a `long`, and has the bit pattern of the exact sum always |
| Calculator.Multiply | src/MyPackage/Calculator.cs:37 | the product is exact whenever it fits in a `long`, and has the bit pattern of the exact product always |
| Calculator.AddIsTheWrappedSum | src/MyPackage/Calculator.cs:23 | the sum is the only `long` with the bit pattern of the exact sum |
| Calculator.MultiplyIsTheWrappedProduct | src/MyPackage/Calculator.cs:37 | the product is the only `long` with the bit pattern of the exact product |
| Calculator.AddZero | tests/MyPackage.Tests/CalculatorTests.cs:31-37 | adding zero returns the original number |
| Calculator.MultiplyZeroAndOne | tests/MyPackage.Tests/CalculatorTests.cs:73-79 | multiplying by zero gives zero, and by one the number itself |
| Calculator.AddCommutative | src/MyPackage/Calculator.cs:23 | the order of the operands does not matter |
| Calculator.MultiplyCommutative | src/MyPackage/Calculator.cs:37 | the order of the operands does not matter |
| Calculator.AddAssociative | src/MyPackage/Calculator.cs:23 | grouping never changes a sum, overflow included |
| Calculator.MultiplyDistributes | src/MyPackage/Calculator.cs:23-37 | multiplication distributes over addition, overflow included |
| Calculator.TwoNegativesMultiplyToPositive | tests/MyPackage.Tests/CalculatorTests.cs:89-95 | the product of two negative numbers is positive when it fits |
| Calculator.OverflowWraps | src/MyPackage/Calculator.cs:23-37 | `long.MaxValue + 1` is `long.MinValue`, and 2^32 * 2^32 is 0 |
| Calculator.AddExamples | tests/MyPackage.Tests/CalculatorTests.cs:15-57 | the sums the test suite expects, including `long.MaxValue - 1 + 1` |
| Calculator.MultiplyExamples | tests/MyPackage.Tests/CalculatorTests.cs:65-107 | the products the test suite expects |
| PackageInfo.Version | src/MyPackage/PackageInfo.cs:13-17 | `0.0.0` when the attribute or its value is null; otherwise a prefix of the value with no `+`, followed there by `+` or by the end |
| PackageInfo.CutIsUnique | src/MyPackage/PackageInfo.cs:16 | the text before the first `+` is determined by those properties alone |
| PackageInfo.WithoutMetadataUnchanged | src/MyPackage/PackageInfo.cs:16 | a version without `+` is reported unchanged |
| PackageInfo.CutAtFirstPlus | src/MyPackage/PackageInfo.cs:16 | `core+metadata` is reported as `core` |
| PackageInfo.ReportedIdempotent | src/MyPackage/PackageInfo.cs:16 | cutting a reported version again changes nothing |
| PackageInfo.EmptyIsNotFallback | src/MyPackage/PackageInfo.cs:16-17 | an empty informational version is reported as empty, not as `0.0.0` |
| PackageInfo.FormatHasNoPlus | scripts/version-and-commit.mjs:93-97 | a version the release script writes contains no `+` |
| PackageInfo.ReleasedVersionIsReported | src/MyPackage/PackageInfo.cs:13-17 | a package built from the version a release writes reports exactly that version, with or without build metadata appended |
| PackageInfo.MetadataExample | src/MyPackage/PackageInfo.cs:16 | `1.2.3+abc` and `1.2.3` are both reported as `1.2.3` |

## Left out

- File system and environment calls are left out and replaced by parameters: `readFileSync`, `writeFileSync`, `readdirSync`, `existsSync`, `statSync`, `process.cwd()` and `process.env`.
  - The `setOutput` pairs are returned as a list.
  - Whether `GITHUB_OUTPUT` is set, and the appending to it, is not modelled.
- Failures of reading or writing files are not modelled, because `read` is total.
  - The catch blocks that turn them into exit code 1 are not modelled either (scripts/version-and-commit.mjs:247-250, scripts/check-file-size.mjs:94-97).
  - A missing project file is modelled: it ends the run as `Fatal`.
- Console output is not modelled. The one count `collectChangelog` prints is returned as `reported`.
- `new Date().toISOString()` is the `isoTimestamp` parameter.
- The shell's parsing of the command lines is not modelled. It includes backslashes, `$` and backquotes in a description. Each command is decided by its whole text.
- Release.CommitTagPush: a push that fails after a successful commit and tag leaves them in the local repository. The model records only the commands issued.
- ReleaseVersion.Decimal: numbers are unbounded. JavaScript numbers are doubles, so `parseInt` of a run of more than 15 or so digits loses precision, and a number of 10^21 or more is written in exponent form (`1e+21`). Versions that large are not modelled.
- ReleaseVersion.Bump: with unbounded numbers, `major + 1` is always exact. In JavaScript it stops changing above 2^53.
- Text.Trim: only the fixed ECMAScript set of white-space and line-terminator characters is modelled, not general Unicode properties.
- Changelog.SortByName: names are compared by code point. JavaScript's default `sort()` compares UTF-16 code units, and the two orders differ only for characters outside the Basic Multilingual Plane.
- FileSize.JoinPath: `path.join` is taken as `dir + "/" + name`. The normalisation of `.`, `..` and repeated separators is not modelled.
- FileSize.IsCSharpName: `extname(name) === '.cs'` is modelled for entry names, which contain no `/`: the name is longer than `.cs` and ends with it.
- FileSize.Relative: `path.relative` is modelled only for paths under the working directory, which are all the paths the walk collects.
- Calculator.Add: assumes the default unchecked context, in which overflow wraps around. src/MyPackage/MyPackage.csproj is not part of this model. With `CheckForOverflowUnderflow` on, an out-of-range sum would throw `OverflowException` instead.
- Calculator.Multiply: makes the same unchecked-context assumption as `Calculator.Add`.
- `Calculator.DelayAsync` (src/MyPackage/Calculator.cs:50-54) is left out. It is timing with a `double` duration and a cancellation token, with no result to state.
- The reflection lookup `Assembly.GetExecutingAssembly().GetCustomAttribute<...>()` is left out. Its result is the `attribute` parameter of `PackageInfo.Version`.
- examples/BasicUsage.cs prints to the console and is not part of this model.

## Findings

| source | as written | input that shows it | evidently intended | confidence | as-written member | corrected member |
|---|---|---|---|---|---|---|
| scripts/version-and-commit.mjs:122-129 | `checkTagExists` wraps `exec(..., true)`, which catches the failure itself and returns `''` (lines 40-46), so the function returns true for every version; every run that reads a version stops at "already released" and never bumps, commits or tags | a repository without the tag `v1.2.4`, where `git rev-parse v1.2.4` fails | report the tag only when `git rev-parse` succeeds | high (by proof; not executed) | Release.TagAlwaysFoundAsWritten | Release.TagFoundIffLookupSucceeds |
| scripts/version-and-commit.mjs:215-224 | the probe `exec('git diff --cached --quiet', true)` never throws, so the no-changes branch is taken even when changes are staged | any repository where staging the project file leaves a difference, so the diff exits 1 | take the no-changes branch only when the diff exits 0 | high (by proof; not executed) | Release.NothingStagedAsWritten | Release.StagedIffDiffFails |
