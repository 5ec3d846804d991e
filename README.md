# release-helper: a verified model of the release decisions

release-helper registers gulp tasks that take a two-branch (`develop`/`master`)
repository through a release: check that GitHub is up, check that the working
tree is clean, bring `master` up to date with `develop`, strip the prerelease
label from the version in `package.json`, and (in steps that are currently
switched off) tag, push, publish the GitHub release and bump `develop` to the
next prerelease version. Almost all of it is calls into git, the file system
and HTTP. This project models the decisions taken between those calls:

- **Versions** (`Versions.dfy`): a semantic version as
  `Version(major, minor, patch, prerelease)`. It covers `baseVersion`, the
  increment `bump-develop` applies and the label it appends, the choice of the
  bump type, and the strings that are stored and used as tag names. It also
  covers the precedence order of Semantic Versioning 2.0.0, section 11. That
  order is used to state that a bump always moves the version up.
- **Task decisions** (`Tasks.dfy`): the `release` token gate and the status
  test of `check-github`. For `ensure-clean` it covers the porcelain-line
  filter, modelled as written: split on `\n`, drop empty pieces, then trim
  (`Text.dfy` holds the JavaScript `split`, `join` and `trim` it needs). For
  `github-release` it covers the transport-error pass-through and the
  rejection filter.
- **Package record** (`Packages.dfy`): `package.json` as a record held by a
  `Workspace` object. The object also holds the branch git reports and a log
  of every write. `strip-prerelease-version` and `bump-develop` are methods
  that update the record in place.
- **Orchestration** (`Orchestration.dfy`): `release` as a state machine
  `Idle -> Running(i) -> Succeeded | Failed(i, err)`. Each step is an abstract
  action whose outcome is a parameter. A loop runs the steps in order and stops
  at the first failure. The eight active steps are wired to the decisions
  above to show how each one can end a release.

The code is followed where descriptions of the tool say otherwise:

- Blank status lines are not ignored by `ensure-clean`. It drops only empty
  pieces and trims afterwards, so `" "` and `"\n \n"` both fail, with one
  reported line `""` (`Tasks.WhiteSpaceLineIsAChange`,
  `Tasks.BlankLineBetweenNewlinesFails`).
- The error that `github-release` hands on for rejected results is only
  "github release rejected". The reasons of the rejected results are logged
  separately rather than put into the message. The model returns them as the
  logged list.
- A missing token is reported to `release`'s own callback, like any step
  error. No step runs.

## Model

| member | source | states |
|---|---|---|
| Text.Split | src/index.js:117 | `split('\n')` yields at least one piece and no piece contains a newline |
| Text.SplitThenJoin | src/index.js:117 | joining the pieces of a split with the separator gives back the status output |
| Text.JoinThenSplit | src/index.js:117 | splitting a join of newline-free pieces gives back the pieces |
| Text.Trim | src/index.js:119 | defined by its body, the slice between the first and the last character that is not white space; `TrimRemovesOnlyOuterWhiteSpace`, `TrimEmptyIffWhiteSpace` and `TrimIdempotent` characterise it |
| Text.TrimRemovesOnlyOuterWhiteSpace | src/index.js:119 | `trim` returns the slice of the line between its leading and trailing white space; everything removed is white space and the result neither starts nor ends with white space |
| Text.TrimEmptyIffWhiteSpace | src/index.js:119 | a line trims to the empty string exactly when it is all white space |
| Text.TrimIdempotent | src/index.js:119 | trimming a trimmed line changes nothing |
| Text.Decimal | src/index.js:85 | the numeral a template literal prints for a version component is non-empty, all digits, without a leading zero |
| Text.DecimalRoundTrip | src/index.js:85 | reading the printed numeral back gives the component |
| Versions.BaseVersion | src/index.js:81-86 | `baseVersion` yields a release version, and leaves a version unchanged exactly when it already is one; `BaseVersionIdempotent` and `BaseVersionPrecedence` characterise it further |
| Versions.BaseVersionIdempotent | src/index.js:81-86 | `baseVersion` keeps major, minor and patch, has no prerelease label, and applying it twice equals applying it once |
| Versions.BaseVersionPrecedence | src/index.js:81-86 | `baseVersion` leaves a release version unchanged, raises a prerelease version strictly, and never lowers a version |
| Versions.RenderBaseVersionReadsBack | src/index.js:81-86 | the string `baseVersion` returns splits on `.` into exactly three numerals that read back as major, minor and patch |
| Versions.ChooseBumpType | src/index.js:12 | the bump type is the first truthy (present and non-empty) of `--bump-type` and `--bumpType`, else `minor`; it is never empty |
| Versions.ParseBumpType | src/index.js:137 | exactly the names `major`, `minor`, `patch` select the corresponding increment |
| Versions.DefaultBumpIsMinor | src/index.js:12 | with neither argument truthy (each absent or empty) the increment is a minor one |
| Versions.Inc | src/index.js:137 | the increment yields a release version strictly above its input whose components below the bumped one are zero; `IncIsLeast` shows it is the least such version |
| Versions.NextDevelop | src/index.js:136-139 | the next develop version carries the label `prerelease` and is strictly above the base version it is computed from |
| Versions.IncIncreases | src/index.js:137 | the increment yields a release version of strictly higher precedence |
| Versions.IncIsLeast | src/index.js:137 | the increment of a release version is the least release version above it whose components below the bumped one are zero |
| Versions.NextDevelopIncreases | src/index.js:136-139 | the next develop version is strictly above both the old version and its base version, and carries the non-empty label `prerelease` |
| Versions.NextDevelopRules | src/index.js:136-139 | major gives (M+1).0.0, minor gives M.(m+1).0, patch gives M.m.(p+1), each with label `prerelease` |
| Versions.RenderCore | src/index.js:85 | defined by its body, `${major}.${minor}.${patch}`; `RenderBaseVersionReadsBack` shows the three numerals read back as the triple |
| Versions.Render | src/index.js:139 | defined by its body, the triple then `-` and the label; `RenderNextDevelop` ties it to the stored string |
| Versions.RenderNextDevelop | src/index.js:139 | the stored string `${v}-prerelease` is the rendering of the next develop version |
| Versions.Compare | src/index.js:137 | the Semantic Versioning section 11 comparison yields -1, 0 or 1; `CompareReflexive`, `CompareAntisymmetric` and `LessTransitive` make it an order |
| Versions.Less | src/index.js:137 | defined by its body, strictly lower precedence; every "strictly above" in this table is stated with it |
| Versions.CompareReflexive | src/index.js:137 | every version has precedence equal to itself |
| Versions.CompareAntisymmetric | src/index.js:137 | swapping the versions negates the precedence comparison |
| Versions.LessTransitive | src/index.js:137 | precedence is transitive, so "strictly above" chains |
| Versions.TagName | src/index.js:131 | the tag name is `v` followed by the version string |
| Versions.TagNameInjective | src/index.js:131 | distinct release versions get distinct tag names |
| Tasks.ChooseToken | src/index.js:13 | the token is the first truthy of `--github-token`, `--githubToken` and `GITHUB_TOKEN`; it is truthy exactly when one of them is |
| Tasks.CheckGithub | src/index.js:160-165 | `check-github` succeeds exactly when the status is `good`; otherwise it fails with the body |
| Tasks.NonEmpty | src/index.js:118 | the filter keeps exactly the non-empty pieces and is empty exactly when every piece is empty |
| Tasks.NonEmptyAppend | src/index.js:118 | the filter keeps order and multiplicity: filtering a concatenation concatenates the filtered parts |
| Tasks.TrimEach | src/index.js:119 | the map trims each kept piece, one for one |
| Tasks.ChangedLines | src/index.js:117-119 | defined by its body, split then filter then trim; `EnsureCleanIffAllLinesEmpty`, `ChangedLinesByLine` and `ChangedLinesAreTrimmed` characterise it |
| Tasks.EnsureClean | src/index.js:112-127 | a git error is passed on; otherwise the task passes exactly when no line is reported, and fails listing the reported lines |
| Tasks.EnsureCleanIffAllLinesEmpty | src/index.js:117-124 | `ensure-clean` passes exactly when every piece of the output split on `\n` is empty, that is when the output is nothing but newlines |
| Tasks.ChangedLinesByLine | src/index.js:117-119 | the output is reported line by line: an empty line is skipped, any other line is reported trimmed, in order |
| Tasks.WhiteSpaceLineIsAChange | src/index.js:117-121 | a whitespace-only line is kept by the filter and makes the task fail with the single reported line `""` |
| Tasks.OneModifiedFileIsReported | src/index.js:117-121 | the output `" M file.txt\n"` fails with exactly the one line `M file.txt` |
| Tasks.BlankLineBetweenNewlinesFails | src/index.js:117-121 | the output `"\n \n"` fails with the one line `""` |
| Tasks.ChangedLinesAreTrimmed | src/index.js:119-121 | every line in the error is already trimmed |
| Tasks.Rejections | src/index.js:64 | the filter keeps exactly the results whose state is `rejected`, and is no longer than its input; with `RejectionsAppend` this fixes order and multiplicity |
| Tasks.RejectionsAppend | src/index.js:64 | the rejection filter keeps order and multiplicity: filtering a concatenation concatenates the filtered parts |
| Tasks.ReasonsOf | src/index.js:67-69 | every reason of every kept result is logged, and every logged message is a reason of a kept result |
| Tasks.GithubRelease | src/index.js:59-77 | a transport error is handed on unchanged and nothing is logged; otherwise the task fails, with "github release rejected", exactly when some result is rejected |
| Tasks.GithubReleaseReportsEveryReason | src/index.js:64-70 | the logged messages are exactly the reasons of the rejected results |
| Packages.ReadPackage | src/index.js:100-103 | reading the version succeeds exactly when the file holds a record with a valid version, and fails with an invalid-version error otherwise |
| Packages.StripOutcome | src/index.js:95-107 | off `master` the task fails with "not on master"; on `master` it passes exactly when the version can be read |
| Packages.Stripped | src/index.js:103-105 | the rewritten record holds the release version with the old major, minor and patch, and every other field unchanged; `StrippedChangesOnlyVersion` adds precedence and idempotence |
| Packages.StrippedChangesOnlyVersion | src/index.js:100-106 | the rewritten record keeps every other field, its version is a release version not below the old one, and stripping again changes nothing |
| Packages.BumpDevelopWriteAsWritten | src/index.js:141 | defined by its body, the JSON string `"./package.json"` that the one-parameter writer stores; `BumpDevelopAsWrittenLosesVersion` shows no version can be read from it |
| Packages.BumpDevelopAsWrittenLosesVersion | src/index.js:141 | as written, `bump-develop` stores a document from which no version can be read, not the bumped record |
| Packages.Bumped | src/index.js:136-139 | the intended record holds exactly `NextDevelop` of the old version (its value per bump type is given by `NextDevelopRules`), labelled `prerelease`, and every other field unchanged; `BumpedReadsBack` adds the read-back and the increase |
| Packages.BumpedReadsBack | src/index.js:135-141 | the intended write stores a record that reads back with the next develop version, strictly above the old one, other fields unchanged |
| Packages.Workspace.Write | src/index.js:19 | the whole document is replaced and appended to the write log; the branch is untouched |
| Packages.Workspace.StripPrereleaseVersion | src/index.js:89-110 | off `master`, or with an unreadable version, it fails and neither the file nor the write log changes; on `master` it writes once, the record with only its version replaced by the base version |
| Packages.Workspace.BumpDevelopAsWritten | src/index.js:134-143 | fails without writing when the version cannot be read; otherwise writes once, and what it writes is the path string |
| Packages.Workspace.BumpDevelop | src/index.js:134-143 | fails without writing when the version cannot be read; otherwise writes once the record with its version replaced by the next develop version |
| Orchestration.Advance | src/index.js:176-200 | one transition never returns to Idle, leaves a terminal state unchanged, and enters Failed(i, _) only from Running(i) when step i fails |
| Orchestration.FirstFailure | src/index.js:176-200 | the step found is the first failing one at or after the start; when none is found every step passes |
| Orchestration.Final | src/index.js:176-200 | the end state is terminal; it is Succeeded exactly when every step passes; Failed(i, e) means step i is the first to fail and reported e |
| Orchestration.Invoked | src/index.js:176-200 | the steps run are 0, 1, … in order, none beyond the count; every step but the last one run passed, and if fewer than all ran the last one failed |
| Orchestration.RunSequence | src/index.js:176-200 | the loop ends in a terminal state equal to `Final` and runs exactly the steps of `Invoked`, in order |
| Orchestration.Release | src/index.js:169-201 | without a truthy token no step runs and the callback gets the missing-token error; with one the run's first error, or nothing on success, goes to the callback |
| Orchestration.MachineReachesFinal | src/index.js:176-200 | the state machine started in Idle reaches the terminal state `Final` within count + 2 transitions and stays there |
| Orchestration.NoStepAfterFirstFailure | src/index.js:176-200 | a failed run stopped at its first failing step with that step's error; all earlier steps ran and passed; no later step ran |
| Orchestration.SucceededIffAllPass | src/index.js:176-200 | a run succeeds exactly when every step passes, and then every step ran |
| Orchestration.LaterStepsAreIrrelevant | src/index.js:176-200 | runs whose step outcomes agree up to a failing step end in the same state with the same steps run |
| Orchestration.ReleaseSteps | src/index.js:177-184 | the eight active steps in order: `check-github` and `ensure-clean` first, `checkout-master` fifth, `strip-prerelease-version` last |
| Orchestration.ReleaseOutcome | src/index.js:176-184 | defined by its body, wiring step 0 to `CheckGithub`, step 1 to `EnsureClean`, step 7 to `StripOutcome` and the git steps to abstract outcomes; `GithubDownStopsRelease`, `DirtyTreeStopsRelease` and `StripDecidesRelease` state what follows |
| Orchestration.GithubDownStopsRelease | src/index.js:176-177 | a status other than `good` fails the release at `check-github` and nothing else runs |
| Orchestration.DirtyTreeStopsRelease | src/index.js:176-179 | a dirty tree fails the release at `ensure-clean`; no git step runs |
| Orchestration.StripDecidesRelease | src/index.js:176-184 | when the first seven steps pass, all eight steps run in order and the release fails with "not on master" off `master`; on `master` with a readable version it succeeds; the off-`master` case needs a branch that `checkout-master` did not set, which `CheckoutMasterRulesOutNotOnMaster` excludes |
| Orchestration.CheckoutMasterRulesOutNotOnMaster | src/index.js:91-99 | when a successful `checkout-master` (src/index.js:38) leaves git on `master`, the release never fails with "not on master" |

## Left out

- The git operations: checkout, pull, merge, push, add/commit, rev-parse, tag and status (src/index.js:23-43, 91, 113, 131). They are foreign process calls. Each is an abstract step outcome or an abstract branch value, and the `commit-release-changes` and `commit-bump-changes` messages are not modelled.
- File I/O through fs-extra (src/index.js:17-19). The package record is held in memory, so a missing file or malformed JSON is not modelled.
- The HTTP request of `check-github` and its string-or-object decoding of the body (src/index.js:149-159). The model starts from the decoded `status` field. That the source ignores the request's own error is not modelled.
- The internals of conventional-github-releaser and run-sequence. Only their observable contracts are modelled: the result list and one step at a time with stop on first error.
- Argument parsing with minimist and the environment lookup. The argument values are inputs.
- Logging and colours, except that the reasons `github-release` logs are returned as a list.
- The commented-out steps of `release` (src/index.js:185-192). `Orchestration.Release` takes the step list as a parameter, and `ReleaseSteps()` returns the eight active ones.
- Versions.ParseBumpType: covers only `major`, `minor` and `patch`. `semver.inc` also accepts the pre-release increments and returns null for unknown names, which would make `bump-develop` compute `null-prerelease`. Neither is modelled.
- Versions.Inc: applies the Semantic Versioning increment rules to the triple only. `semver.inc`'s handling of a prerelease input is not modelled, because `bump-develop` only passes it a base version. Components are unbounded (see below).
- The semver string parser. A version is held parsed and build metadata is not modelled. An absent or invalid version is one case, reported as the invalid-version error.
- Packages.StripOutcome: with an unreadable version the model reports `Fail(InvalidVersion)`. The code does not: `semver.major` (src/index.js:82) throws inside the `git.revParse` callback (src/index.js:91, 103), so `done` is never called with it and `release`'s completion callback (src/index.js:193-199) never receives it. The throw escapes asynchronously instead.
- Packages.Workspace.StripPrereleaseVersion: the same uncaught throw is reported as `Fail(InvalidVersion)`, with no write, instead of escaping the git callback. `Orchestration.ReleaseOutcome` inherits this for step 7.
- Version components are unbounded naturals. In JavaScript they are doubles, and semver rejects components above `Number.MAX_SAFE_INTEGER` (2^53 - 1) as invalid. So `Versions.Inc`, `Versions.NextDevelop` and `Text.Decimal` also cover versions the code would treat as invalid.
- The text of each error message, e.g. the comma-joined line list of `ensure-clean` (src/index.js:121). Errors are modelled by kind and payload.
- Versions.TagName: renders the parsed version. For a version that cannot be read, the source would still produce a tag name (`vundefined` for a missing one), and that case is not modelled.
- Characters are Unicode scalar values, while JavaScript strings are UTF-16. Comparing prerelease identifiers by character code therefore matches JavaScript only outside the surrogate range.
- Concurrent runs and interference from other processes on the working tree. The source assumes a single run.

## Findings

| source | as written | input that shows it | evidently intended | confidence | as-written member | corrected member |
|---|---|---|---|---|---|---|
| src/index.js:141 | `bump-develop` calls the one-parameter writer of src/index.js:19 with the path as its first argument, so package.json is overwritten with the JSON string "./package.json" and the bumped record is dropped | any readable record, e.g. version `1.2.3` with bump type `minor`: afterwards no version can be read | store the record with its version set to `1.3.0-prerelease` | high; not executed | Packages.BumpDevelopAsWrittenLosesVersion | Packages.BumpedReadsBack |
