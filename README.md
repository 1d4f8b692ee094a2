# req-update in Dafny

req-update updates the dependencies of a git repository. It probes a fixed list of updaters in
order: Docker, Drone, GitHub workflows, git submodules, Go, Node and Python. Each updater that
applies runs on a `dep-update` branch, which is created just before the first updater runs.
Each updater finds newer versions from the network (Docker Hub, the GitHub API) or from the
package manager (`pip list --outdated`, `npm outdated`). It rewrites the pinned version in the
manifest and commits every update separately, pushing when asked to. The branch is rolled back
when nothing was updated.

This project models that core in Dafny:

- **`Text`, `Wrappers`, `JsonValue`:** Python string operations, exceptions as `Result` values,
  and decoded JSON values with Python's subscription, `get`, `in` and iteration.
- **`Versions`:** the version algebra of `util.py`. This covers `compare_versions`,
  `check_major_version_update` and `generate_next_versions`, and the running-maximum fold the
  Docker and GitHub updaters use.
- **`Shell`:** the `Util` class.
  - It models the dry-run gate of `execute_shell` and the cleanliness check.
  - It models the branch life cycle, the commit and push commands, and the request cache.
  - The system, the network, `json.loads`/`json.dumps` and the working tree are parameters of
    the class.
  - Every command is appended to a log (`issued`), so "a commit was made" is a statement about
    the log.
- **`ImageLine`, `Registry`, `Docker`:** the image updaters.
  - The class `Docker.ImageUpdater` covers `Docker`, `Drone` and `GithubWorkflow`. They share
    the per-line loop and differ in their header, separator, update files and registry.
  - `Drone` does not run as written: its file listing and its own `update_dependencies` both
    raise (see "Left out"). Only its per-line loop is modelled, as `UpdateDrone`.
  - `ImageLine` covers line parsing and rewriting, and `Registry` the registry replies.
- **`RequirementLine`, `PythonEdit`, `PipOutput`, `PyprojectGroups`, `Python`:** the Python
  updater.
  - `RequirementLine` is a hand-written matcher for the requirements and pyproject regular
    expressions, together with the spacer arithmetic of the rewrite. The pyproject
    substitution is unanchored and replaces every match on the raw line (`SubAllFrom`), so a
    line holding several entries has each entry the pattern matches rewritten with the same
    version, even entries of other packages.
  - The other modules cover the edit of the manifests, the sorted `pip list` output, the
    optional dependency groups of `pyproject.toml`, and the class itself.
- **`NodeVersion`, `Node`:** the caret specifiers written into `package.json`, and the Node
  updater with its unpinned and pinned passes.
- **`GitSubmodule`:** the submodule listing, the reading of `git show`, and the choice between
  the newest tag and the newest commit.
- **`Orchestrator`:** `ReqUpdate.main`.
  - It models the cleanliness check, the language filter and the probing order.
  - It models the single branch creation before the first updater that runs, and the rollback
    when nothing changed.

## Model

| member | source | states |
|---|---|---|
| Text.Split | req_update/gitsubmodule.py:41 | `s.split(sep)` gives pieces without the separator, and joining them with it gives `s` back |
| Text.SplitCount | req_update/util.py:184-185 | `split` gives one more piece than the string has separators |
| Text.Lines | req_update/python.py:119-120 | `readlines()` gives non-empty lines |
| Text.LinesAreLines | req_update/python.py:119-120 | every piece `readlines()` gives is one line: it holds no `'\n'` except possibly as its last character, and every piece but the last ends with `'\n'` |
| Text.LinesConcat | req_update/python.py:126-127 | joining what `readlines()` read gives the file back unchanged, so writing back an unedited buffer changes nothing |
| Text.Strip | req_update/util.py:97 | `strip()` leaves no whitespace at either end and never lengthens the string |
| Text.StripTrimmed | req_update/util.py:97 | `strip()` cuts only whitespace: the result is the slice of the string after its leading whitespace, and everything outside that slice is whitespace |
| Text.TokensAreTokens | req_update/docker.py:69 | every piece of `line.split()` is a non-empty run without whitespace |
| Text.TokenOccurs | req_update/docker.py:69 | every piece of `line.split()` occurs in the line at the offset returned |
| Text.Count | req_update/docker.py:70 | `count(c)` is the number of occurrences of `c` |
| Text.RemovePrefix | req_update/githubworkflow.py:32 | `removeprefix` drops the prefix exactly when the string starts with it, and otherwise changes nothing |
| Text.ReplaceChanges | req_update/docker.py:76-79 | replacing a pattern that occurs by a different string always changes the text |
| Text.Lower | req_update/req_update.py:145 | `lower()` maps ASCII capitals to small letters and keeps every other character and the length |
| Text.NatToString | req_update/node.py:173-175 | `str(n)` spells `n` in decimal digits with no leading zero |
| JsonValue.LookupAssignSame | req_update/node.py:159 | after `d[key] = value`, `d[key]` is `value` |
| JsonValue.LookupAssignOther | req_update/node.py:159 | `d[key] = value` leaves the value of every other key alone |
| JsonValue.KeysAssign | req_update/node.py:159 | `d[key] = value` adds `key` and removes no key |
| Versions.Skeleton | req_update/util.py:133-135 | removing the digit runs leaves no digit |
| Versions.CompareVersions | req_update/util.py:126-146 | an upgrade always has the same structure (skeleton) as the current version |
| Versions.CompareVersionsCharacterization | req_update/util.py:126-146 | an upgrade has an equal skeleton, and its run is larger at the first position, within the shorter run list, where the two versions differ |
| Versions.RunsLessFirstDifference | req_update/util.py:138-146 | the digit-run loop decides at the first differing run within the shorter list; lists that agree that far are "no upgrade" |
| Versions.CompareVersionsPrefixIsNoUpgrade | req_update/util.py:138-146 | when one run list is a prefix of the other, neither version is an upgrade of the other |
| Versions.CompareVersionsIrreflexive | req_update/util.py:126-146 | no version is an upgrade of itself |
| Versions.CompareVersionsAsymmetric | req_update/util.py:126-146 | upgrades go one way only |
| Versions.CompareVersionsTransitive | req_update/util.py:126-146 | an upgrade of an upgrade is an upgrade, which makes the running-maximum folds sound |
| Versions.RemoveUnderscores | req_update/util.py:158-163 | the underscores `int()` accepts are removed: no underscore is left, a single character is kept unless it is `_`, and digits and underscores become digits only |
| Versions.RemoveUnderscoresNone | req_update/util.py:158-163 | a string without underscores is unchanged |
| Versions.RemoveUnderscoresLength | req_update/util.py:158-163 | the result is shorter than the input by exactly its number of underscores |
| Versions.RemoveUnderscoresAppend | req_update/util.py:158-163 | removing underscores works piece by piece, so with the one-character case the result is the input with its underscores deleted and every other character kept in order |
| Versions.PyIntOfDigits | req_update/util.py:158-163 | `int()` reads back what `str()` writes |
| Versions.MajorVersionChange | req_update/util.py:148-176 | the detector fails exactly when a side, stripped of leading range operators, is not three dot-separated parts whose first parses as an integer |
| Versions.MajorVersionChangeOfSemver | req_update/util.py:148-176 | for semver strings after any range operators, the detector reports exactly whether the major numbers differ |
| Versions.SplitRunsAlternating | req_update/util.py:184-185 | `re.split` pieces alternate between text and digit runs, and join back to the version |
| Versions.DigitRunsSplitRuns | req_update/util.py:184-185 | the runs and the skeleton of a version can be read off its split pieces |
| Versions.ConcatAlternating | req_update/util.py:184-185 | joining split pieces and reading them back gives the same runs and texts |
| Versions.NextVersionsAt | req_update/util.py:178-199 | the k-th generated version bumps the k-th run from the right |
| Versions.GenerateNextVersions | req_update/util.py:178-199 | the right-to-left loop that zeroes runs as it goes produces exactly `NextVersions`: one candidate per run, rightmost first, each bumping its run and zeroing the runs to its right |
| Versions.BumpedPiecesRuns | req_update/util.py:188-198 | a candidate keeps the runs before the bumped one, adds one to it and zeroes the runs after it |
| Versions.NextVersionShape | req_update/util.py:178-199 | there is one candidate per digit run, each with the original skeleton and the bumped runs |
| Versions.BumpedRunsLess | req_update/util.py:188-198 | bumping a run and zeroing the later ones gives a larger run list |
| Versions.NextVersionIsUpgrade | req_update/util.py:178-199 | every generated candidate is an upgrade of the current version by `compare_versions` |
| Versions.SelectNewest | req_update/docker.py:113-116 | the fold returns the original or a candidate that upgrades it, and no candidate upgrades the result |
| Versions.NewestNotEmpty | req_update/githubworkflow.py:33-37 | a fold result that differs from the original is never empty, so `''` always means "no update" |
| Shell.CommitMessageShape | req_update/util.py:13 | the commit message starts with the language and package, ends with the version, and adds 20 fixed characters |
| Shell.Reply | req_update/util.py:215-230 | a missing program raises `FileNotFoundError`; exit code 0 returns the output; a non-zero exit raises `CalledProcessError` unless the exit code is ignored, in which case the error is returned as the result |
| Shell.DirtyLines | req_update/util.py:70 | the kept lines are exactly the status lines that are non-empty and not untracked (`??`) |
| Shell.CleanlinessIff | req_update/util.py:54-71 | the repository is clean exactly when every `git status --porcelain` line is empty or untracked |
| Shell.Is2xxRange | req_update/util.py:271 | `int(status/100) == 2` holds exactly for statuses 200 to 299 |
| Shell.BranchCheckout | req_update/util.py:97-101 | the existing branch is checked out exactly when `git branch --list` printed something; otherwise a new branch is created |
| Shell.Util.constructor | req_update/util.py:45-52 | starts with no pre-existing branch, an empty request cache and an empty command log |
| Shell.Util.ExecuteShell | req_update/util.py:201-230 | logs the command. In dry-run mode a command that writes is not run and answers an empty success; any other command answers what the system gives |
| Shell.Util.CheckRepositoryCleanliness | req_update/util.py:54-71 | in dry-run mode the repository counts as clean without a command; otherwise one status command decides |
| Shell.Util.PushDependencyUpdate | req_update/util.py:118-124 | pushes only when pushing is on |
| Shell.Util.CommitGit | req_update/util.py:73-78 | commits everything and pushes only after a successful commit with pushing on; a failing commit stops there |
| Shell.Util.CommitDependencyUpdate | req_update/util.py:80-89 | commits with the message built from the language, the package and the version |
| Shell.Util.CreateBranch | req_update/util.py:91-102 | lists the branch, then checks it out (remembering that it existed) or creates it; a failing listing issues nothing more |
| Shell.Util.RollbackBranch | req_update/util.py:104-111 | does nothing for a pre-existing branch; otherwise returns to the previous branch, then deletes the update branch only when that succeeded |
| Shell.Util.ResetChanges | req_update/util.py:113-116 | issues one `git checkout .`. When it runs and succeeds, the working tree goes back to the committed tree the caller names; a dry run or a failing checkout changes nothing |
| Shell.CacheAfter | req_update/util.py:259-281 | the cache after a request keeps every entry it had, and gains the URL exactly when the request answered a decoded value, which it then holds |
| Shell.Util.CachedRequest | req_update/util.py:259-281 | a cached URL answers from the cache without a fetch. Otherwise it fetches once: a non-2xx status raises, a body that does not decode raises, and a decoded body is cached under the URL alone |
| Shell.Util.RequestTwice | req_update/util.py:264-265 | a second request for a URL whose first request succeeded returns the same value, whatever headers it carries, and fetches nothing |
| Shell.Util.ReadFile | req_update/python.py:119-122 | reading fails exactly when the file is absent |
| Shell.Util.WriteFile | req_update/docker.py:137-139 | writing replaces the content of that path only |
| ImageLine.ParseImage | req_update/docker.py:66-73 | a line is an image line exactly when its stripped text starts with the header. An image line without a second token raises `IndexError`. The image is pinned exactly when the separator occurs once in it |
| ImageLine.PinnedRebuildsImage | req_update/docker.py:70-73 | a pinned image is its dependency, the separator and its version, and neither part holds the separator |
| ImageLine.PinnedVersionOccurs | req_update/docker.py:76-79 | the separator followed by the version occurs in a pinned line, so the `replace` has something to replace |
| ImageLine.RewriteChangesLine | req_update/docker.py:76-79 | writing a different version into a pinned line always changes the line |
| ImageLine.UpdateFiles | req_update/docker.py:24-32 | the update files are exactly the listed paths the file pattern accepts |
| ImageLine.WorkflowFileShape | req_update/githubworkflow.py:17 | a workflow file is a `.yml` file under `.github/workflows/` with a non-empty name |
| ImageLine.StripNewlines | req_update/docker.py:60-64 | stripping the newlines keeps one line per line read |
| ImageLine.ReadLinesJoin | req_update/docker.py:137-139 | joining the stripped lines with `'\n'` gives the file without its final newline, so an unchanged buffer loses at most that newline |
| Registry.DockerRepositoryParts | req_update/docker.py:88-93 | with exactly one `/` the dependency splits into namespace and name; otherwise it is looked up whole under `library` |
| Registry.TagNames | req_update/docker.py:108-112 | one name per tag when every tag has a `name`. The comprehension stops at the first tag without one: a tag that is not a dictionary raises `TypeError`, and a dictionary without `name` ends the lookup with no tags |
| Registry.FirstUnnamed | req_update/docker.py:109 | the position of the first tag without a `name`: every earlier tag has one |
| Registry.Strings | req_update/docker.py:114-116 | the fold accepts only string versions: any other value raises `TypeError` in `compare_versions` |
| Registry.TagNamesAll | req_update/docker.py:109 | when every tag has a `name`, the comprehension gives those names in order |
| Registry.TagNamesEach | req_update/docker.py:109 | whatever the comprehension gives is each tag's `name`, in order |
| Registry.DockerCandidatesIff | req_update/docker.py:103-112 | a Docker Hub reply gives candidates exactly when its `results` iterate to tags that all carry a string `name`; the candidates are those names, in order |
| Registry.HttpErrorIsNoTags | req_update/docker.py:105-107 | an HTTP error reads as an empty tag list |
| Registry.RefNamesIff | req_update/githubworkflow.py:32 | the refs read without error exactly when each tag has a string `ref`; the names are the refs without `refs/tags/` |
| Registry.WorkflowCandidatesIff | req_update/githubworkflow.py:24-32 | a GitHub reply gives candidates exactly when it iterates to tags that all carry a string `ref`; the candidates are the refs without their prefix |
| Docker.DottedVersion | req_update/util.py:126-146 | a `major.minor` version has skeleton `.` and the two runs |
| Docker.KnownAnswer | req_update/docker.py:86-87 | a cached version that is used is an upgrade of this original |
| Docker.KnownAnswerDiffers | req_update/docker.py:86-87 | the corrected answer differs from the written one exactly where the written one returns a cached version that is not an upgrade of the original |
| Docker.UpdateCountPositive | req_update/docker.py:53-58 | some update was made exactly when some line found a version |
| Docker.UpgradeIsFound | req_update/docker.py:112-129 | a lookup whose registry offers a tag newer than the original never answers `''`: the answer is an upgrade that no offered tag improves on |
| Docker.AttemptIsUpdate | req_update/docker.py:66-80 | an attempt that names a dependency and finds an upgrade is an update of that line |
| Docker.ImageUpdater.constructor | req_update/docker.py:15-19 | starts with no known versions |
| Docker.ImageUpdater.LookupDocker | req_update/docker.py:88-117 | asks Docker Hub for the dependency's repository. The answer is the newest upgrade, or `''`; a reply without readable `results` answers `''` and remembers nothing. The cache afterwards is what `cached_request` leaves |
| Docker.ImageUpdater.LookupWorkflow | req_update/githubworkflow.py:21-47 | asks GitHub for the tags with the API headers. An HTTP or decode error answers `''`; otherwise the answer is the newest upgrade, or `''`. The cache afterwards is what `cached_request` leaves |
| Docker.ImageUpdater.FindUpdatedVersion | req_update/docker.py:82-129 | a successful call is one `Finds` step from the lookup state before it to the one after it. A version found is an upgrade of the original. For Docker and Drone, `latest` is never updated and costs no request, and a usable cached answer costs no request. Otherwise the answer is the newest upgrade the registry offers, or `''`, and that choice is remembered for the dependency; an error or a reply without readable tags remembers nothing. The workflow lookup answers `''` on an HTTP or decode error, propagates any other error, and leaves the known versions alone |
| Docker.ImageUpdater.AttemptUpdateImage | req_update/docker.py:66-80 | a line that is not a pinned image is returned unchanged, with no lookup and the cache and known versions untouched. For a pinned image, the version returned is what `find_updated_version(dependency, version)` answers from the lookup state before the call (the `Finds` relation, with the cache and known versions it leaves), and the line is rewritten exactly when that answer is non-empty |
| Docker.ImageUpdater.CommitBuffer | req_update/docker.py:131-140 | writes the joined lines back unless in dry-run mode, then makes exactly one commit when it succeeds |
| Docker.ImageUpdater.UpdateLine | req_update/docker.py:50-57 | handles line `i` from the current lookup state: the line's outcome (`LineOutcome`) records the lookup it made and the version found, which is the lookup's answer when the image names a dependency. A line with a version found is replaced and committed once; any other line is left alone and nothing is committed |
| Docker.ImageUpdater.UpdateLines | req_update/docker.py:47-58 | line `i` is looked up from lookup state `looks[i]`, which the lookup of line `i - 1` left, starting from the state before the call and ending in the state after it. Each line's version found is its lookup's answer, so a pinned line that names a dependency and whose registry offers an upgrade is rewritten (`Docker.UpgradeIsFound`). Updated lines are replaced and committed, the others kept, and the number of commits is the number of updates |
| Docker.ImageUpdater.UpdateDependenciesFile | req_update/docker.py:47-64 | a missing file raises `FileNotFoundError` before any command. Otherwise the per-line loop runs on its lines as `UpdateLines` states, and the call is one `FileStep` from the tree, log and lookup state before it to those after it |
| Docker.ImageUpdater.GetUpdateFiles | req_update/docker.py:24-32 | runs one `git ls-files`; a failing `git` lists no files |
| Docker.ImageUpdater.CheckApplicable | req_update/docker.py:21-22 | applies exactly when some update file is tracked |
| Docker.ImageUpdater.UpdateDependencies | req_update/docker.py:34-45 | lists the update files with `git ls-files`, then runs the per-line loop on each listed file in turn. File `i` takes the tree, the log and the lookup state from state `i` to state `i + 1` as `UpdateDependenciesFile` does, so each line's version found is its lookup's answer. The answer is whether any file reported an update |
| Docker.ImageUpdater.UpdateEach | req_update/docker.py:39-45 | the loop over the update files: each file is one `UpdateDependenciesFile` step from the lookup state the previous file left, the first error propagates, and the answer is the OR of the files' answers |
| Docker.ImageUpdater.UpdateDrone | req_update/drone.py:10-27 | runs the per-line loop over `.drone.yml` as `UpdateLines` states, each line looked up in turn with the Docker Hub lookup; the answer is whether any commit was made |
| RequirementLine.SpanRun | req_update/python.py:14-15 | a character-class run takes every matching character and stops at the first other one |
| RequirementLine.ReleaseEnd | req_update/python.py:16 | a release number, when one starts, is non-empty |
| RequirementLine.SpacerShape | req_update/python.py:17 | the spacer is empty, or spaces ending in `#`, optionally after a comma |
| RequirementLine.MatchShape | req_update/python.py:19-30 | a match spells out its groups, with quotes for pyproject; the name and the operator are non-empty |
| RequirementLine.SubAllFrom | req_update/python.py:186-190 | `re.sub` of the unanchored pyproject pattern changes nothing when no match starts in the rest of the line |
| RequirementLine.CommentSpacer | req_update/python.py:172-176 | the new spacer keeps the comment in its column when the new version fits. Otherwise it is `11 - len(version) % 10` long, which pads the version and spacer to one past a multiple of ten |
| RequirementLine.NewSpacer | req_update/python.py:172-180 | a requirements line without a comment gets no spacer; a pyproject line gets a comma in place of the first character of the spacer |
| RequirementLine.Rewrite | req_update/python.py:162-197 | a rewritten line differs from the old one, and it is a line whose stripped text matches with the normalised dependency name |
| RequirementLine.RequirementsLocal | req_update/python.py:163 | matching the stripped line and the raw line agree when the raw line only adds trailing whitespace |
| RequirementLine.RequirementSubstitution | req_update/python.py:182-185 | the substitution on the raw line uses the groups found on the stripped line, and keeps the comment and the newline |
| RequirementLine.IndentedRequirementSkipped | req_update/python.py:163-185 | an indented requirements line is never rewritten, because the anchored substitution on the raw line cannot match |
| RequirementLine.SpacerRebuilt | req_update/python.py:172-176 | a spacer without a comma is rebuilt as itself when the version keeps its length |
| RequirementLine.RewriteSkips | req_update/python.py:191-192 | a substitution that gives the line back unchanged skips the line |
| RequirementLine.SameVersionUnchanged | req_update/python.py:172-192 | rewriting a requirements line to the version it already pins changes nothing, unless a comma before the comment has to give way |
| RequirementLine.RequirementRewritten | req_update/python.py:161-197 | a requirements line is rewritten to name, operator, version, new spacer and the rest of the line. It is skipped for another package or when nothing changes |
| RequirementLine.PyprojectCommaAdded | req_update/python.py:180-190 | a pyproject entry without a comment gets a comma after its closing quote |
| PythonEdit.FirstChange | req_update/python.py:162-197 | the line reported is the first that the edit changes, and no line is reported when the edit changes none |
| PythonEdit.FirstRewriteAt | req_update/python.py:162-197 | the first line the rewrite changes is the one the loop stops at |
| PythonEdit.FirstRewriteNone | req_update/python.py:198 | when the rewrite changes no line, the loop reports none |
| PythonEdit.RewriteChangesOnly | req_update/python.py:191-192 | the rewrite answers only with a line that differs |
| PythonEdit.RewrittenChangesOneLine | req_update/python.py:150-198 | the edit keeps the number of lines and changes at most one line, the first the rewrite changes. The buffer is unchanged exactly when no line matches the dependency with another version |
| PythonEdit.SelectedPathsMeaning | req_update/python.py:129-148 | a path is selected exactly when a manifest names it and the condition holds for it |
| PythonEdit.ChangedPathsMeaning | req_update/python.py:137-147 | a path is reported changed exactly when a manifest names it and its edit changes a line |
| PythonEdit.ChangedPathsWithin | req_update/python.py:137-147 | only manifests are reported changed |
| PythonEdit.EditedFrame | req_update/python.py:112-127 | an edit never creates a file and touches only its own path; a file whose lines are unchanged, and every file in dry-run mode, is left exactly as it was |
| PythonEdit.EditAllOther | req_update/python.py:129-148 | editing other paths leaves a path alone |
| PythonEdit.EditAllKeys | req_update/python.py:129-148 | editing the manifests creates no file, and in dry-run mode changes nothing |
| PythonEdit.EditStep | req_update/python.py:132-147 | editing one manifest more changes only that manifest, judged on the original contents because the paths are distinct |
| PipOutput.PipMajorReads | req_update/python.py:55-60 | the banner `pip X.Y... from ...` gives `X` |
| PipOutput.BelowIrreflexive | req_update/python.py:107 | Python's string `<` is irreflexive |
| PipOutput.BelowTransitive | req_update/python.py:107 | Python's string `<` is transitive |
| PipOutput.BelowTotal | req_update/python.py:107 | Python's string `<` is total |
| PipOutput.Keyed | req_update/python.py:107 | the sort keys are computed in order; the first entry without a string `name` raises |
| PipOutput.InsertKeeps | req_update/python.py:107 | inserting into the sorted list adds exactly that entry |
| PipOutput.InsertSorted | req_update/python.py:107 | inserting into a list sorted by name keeps it sorted |
| PipOutput.SortByNameCorrect | req_update/python.py:107 | the sort orders by name and is a permutation |
| PipOutput.OutdatedSorted | req_update/python.py:102-108 | the outdated packages come sorted by name, each entry once; the result fails exactly when the output does not iterate or an entry has no string `name` |
| PyprojectGroups.GroupName | req_update/python.py:18 | a group name is a non-empty run of `[a-zA-Z0-9_]` at the start of the line, followed by ` = [` |
| PyprojectGroups.GroupLineIsNoHeader | req_update/python.py:215-225 | a line that declares a group is never the table header |
| PyprojectGroups.TableStep | req_update/python.py:218-227 | inside the table, a line that does not open a table adds its group, if it has one |
| PyprojectGroups.NoHeaderNoGroups | req_update/python.py:213-219 | without a header line there are no groups |
| PyprojectGroups.GroupsAfterHeader | req_update/python.py:213-219 | everything before the first header is ignored |
| PyprojectGroups.TableEnds | req_update/python.py:220-221 | inside the table, a line that starts with `[` and is not the header ends the scan |
| PyprojectGroups.GroupsAreNames | req_update/python.py:222-225 | every group found is a valid group name |
| PyprojectGroups.ScanOptionalGroups | req_update/python.py:213-227 | the loop collects exactly `OptionalGroups`: the groups between the header and the next table |
| PyprojectGroups.GroupCommands | req_update/python.py:226 | one `pip install -e .[group]` per group, in order |
| Python.InstallNeverCommits | req_update/python.py:203-227 | installing an updated file runs pip only, never a commit |
| Python.AllInstallNeverCommits | req_update/python.py:200-228 | reinstalling the updated files, in any order, runs pip only |
| Python.Enumerate | req_update/python.py:202 | iterating the set of updated files visits each exactly once, in an order the set does not fix |
| Python.Python.constructor | req_update/python.py:41-43 | starts with no updated files |
| Python.Python.CheckApplicable | req_update/python.py:45-71 | applies exactly when `pip --version` answers with a major version of at least 9 and some manifest is present |
| Python.Python.HasManifest | req_update/python.py:66-70 | the `for ... else` finds a manifest exactly when one is present |
| Python.Python.GetPipOutdated | req_update/python.py:102-108 | runs `pip list --outdated` once and answers the packages sorted by name, or the error |
| Python.Python.WriteDependencyUpdateLines | req_update/python.py:150-198 | the buffer becomes `Rewritten`: only the first line that pins the dependency to another version changes, and the answer is whether a line changed |
| Python.Python.EditRequirements | req_update/python.py:112-127 | the file is edited as specified and written back unless in dry-run mode or empty; the answer is whether a line changed |
| Python.Python.WriteDependencyUpdate | req_update/python.py:129-148 | every manifest is edited in turn. The updated files grow by exactly the changed manifests, and the answer is whether any changed |
| Python.Python.EditEach | req_update/python.py:132-147 | the loop over manifests with distinct paths gives `EditAll` and `ChangedPaths`: each manifest edited in turn, and the updated files growing by those that changed |
| Python.Python.UpdateDependenciesFileAsWritten | req_update/python.py:90-100 | as written, any non-empty outdated list raises `AttributeError` before any file is touched |
| Python.Python.UpdatePackage | req_update/python.py:92-99 | for one package, every manifest is edited with this dependency and its `latest_version`, and the updated files grow by the manifests that changed. A commit with the message for `Python`, the package and that version is made exactly when some manifest changed; a `latest_version` that is missing or not a string raises before anything changes; in dry-run mode no file changes |
| Python.Python.UpdateDependenciesFile | req_update/python.py:85-100 | runs `pip list --outdated` and processes its entries sorted by name, in order: entry `i` is one `UpdatePackage` step from state `i` to state `i + 1`. The answer is whether any entry committed |
| Python.Python.UpdateEachPackage | req_update/python.py:92-99 | the loop over the sorted outdated entries: entry `i` is one `UpdatePackage` step, the first error propagates, and the answer is whether any entry committed |
| Python.LatestVersion | req_update/python.py:97 | an entry's `latest_version` is read exactly when it is present and a string |
| Python.Python.InstallGroups | req_update/python.py:222-227 | one install per optional group, in order |
| Python.Python.InstallPyproject | req_update/python.py:206-227 | the editable install, then one install per optional group; a missing file raises |
| Python.Python.InstallFile | req_update/python.py:203-227 | the commands for one updated file by its kind |
| Python.Python.InstallUpdatesAsWritten | req_update/python.py:200-228 | as written, reinstalling succeeds exactly when no file was updated |
| Python.Python.InstallUpdates | req_update/python.py:200-227 | reinstalls every updated file exactly once, in some order, with the commands for its kind |
| Python.Python.UpdateDependencies | req_update/python.py:73-83 | runs the update pass over the sorted outdated packages, one `UpdatePackage` step each, and answers whether any committed. A true answer is followed by the installs of every updated file exactly once, in some order; a false one by no further command. In dry-run mode no file changes |
| NodeVersion.SemverParts | req_update/node.py:13 | `SEMVER` captures three components without leading zeros, joined by dots, allowing one trailing newline |
| NodeVersion.GeneratePackageVersion | req_update/node.py:162-178 | raises exactly for `0.0.0`; a version that is not semver is kept as it is |
| NodeVersion.SemverPartsOfSemver | req_update/node.py:13 | a semver version is read back as its components |
| NodeVersion.GenerateOfSemver | req_update/node.py:168-178 | `^MAJOR.0.0` for a non-zero major, `^0.MINOR.0` for a non-zero minor, the version itself for `0.0.PATCH` |
| NodeVersion.GeneratedAllows | req_update/node.py:162-178 | the generated specifier allows exactly the versions that share the leading non-zero component, including the version it came from |
| NodeVersion.GenerateKeepsOtherDots | req_update/node.py:168-170 | a version without exactly two dots is kept |
| NodeVersion.GenerateKeepsLeadingZero | req_update/node.py:168-170 | a version with a leading zero is kept |
| Node.Applicable | req_update/node.py:26-54 | a failing `which` means not applicable; otherwise both `package.json` and the lockfile must be present |
| Node.InstallVerdict | req_update/node.py:180-196 | `false` when npm reports an unresolvable dependency, whether or not it failed; any other failure propagates |
| Node.UpdatePackageDependencies | req_update/node.py:151-160 | succeeds exactly when `latest` is a string whose specifier can be generated; a missing key or a non-string raises |
| Node.UpdateOnlyThePackage | req_update/node.py:151-160 | only the package's entry changes: it holds the generated specifier, every other package keeps its own, and the keys are the old ones plus the package |
| Node.PackageEdit | req_update/node.py:114-132 | a `package.json` that is not an object raises `AttributeError` |
| Node.EditPrefersDependencies | req_update/node.py:115-122 | a package under `dependencies` is edited there, and `devDependencies` is left as it was |
| Node.EditFallsBackToDev | req_update/node.py:123-130 | a package only under `devDependencies` is edited there, and `dependencies` is left as it was |
| Node.EditNeither | req_update/node.py:131-132 | a package in neither section is not edited |
| Node.Choose | req_update/node.py:72-78 | npm first, then pnpm, none when neither applies |
| Node.PlannedEdit | req_update/node.py:112-114 | an unreadable or undecodable `package.json` raises; otherwise the edit is made on the decoded document |
| Node.ReadIn | req_update/node.py:112 | reading `package.json` gives its contents exactly when it is present, and raises `FileNotFoundError` otherwise |
| Node.NotCommits | req_update/node.py:79-196 | no command of the updater except the commit is a commit |
| Node.NodeUpdater.constructor | req_update/node.py:16 | the updater edits `package.json` with `PackageEdit` |
| Node.NodeUpdater.CheckManager | req_update/node.py:26-54 | one `which` command, then the applicability verdict |
| Node.NodeUpdater.CheckApplicable | req_update/node.py:17-24 | npm applies, or else pnpm does; pnpm is probed only when npm does not apply |
| Node.NodeUpdater.ChooseManager | req_update/node.py:72-78 | probes npm, then pnpm only when needed, and picks the first that applies |
| Node.NodeUpdater.UpdateWith | req_update/node.py:79-87 | issues the manager's update first. The answer is whether a commit was made, and a commit made is `Update <manager> packages`; in dry-run mode the tree counts as clean and nothing is committed |
| Node.NodeUpdater.UpdateUnpinnedDependencies | req_update/node.py:66-87 | as `UpdateWith` after the manager choice, which starts with `which npm`; the choice's error propagates |
| Node.NodeUpdater.GetOutdated | req_update/node.py:100-106 | `npm outdated --json`, whose non-zero exit is expected, decoded |
| Node.NodeUpdater.InstallDependencies | req_update/node.py:180-196 | one `npm install` and its verdict |
| Node.NodeUpdater.ApplyEdit | req_update/node.py:133-149 | `Applied`: writes `package.json` with a final newline unless in dry-run mode, then `npm install`, whose verdict decides the rest. An install that raises fails with its error; one npm cannot resolve is reset, which puts `package.json` back, makes no commit and answers `false` unless the reset fails; an old version that is not a string raises before the commit; otherwise the commit with the message for `Node`, the package and its new specifier comes right after the install. On success this is an `InstallStep` |
| Node.NodeUpdater.UpdatePackage | req_update/node.py:108-149 | edits `package.json` as `PlannedEdit` plans. A read, decode or edit error propagates and changes nothing; a package in neither section changes nothing and answers `false`; otherwise the call is `Applied` to the planned edit, with the same install verdicts. On success it is one `PackageStep`: the answer is whether a commit was made, an install that conflicts is followed by the reset alone, and an install that succeeds is followed by the package's commit. In dry-run mode no file changes |
| Node.NodeUpdater.UpdatePinnedDependencies | req_update/node.py:89-98 | `PinnedPass`: runs `npm outdated`; an empty report updates nothing, and otherwise the report's entries are updated in turn, entry `i` being one `PackageStep` (with its install verdict) from state `i` to state `i + 1`, starting from the tree and the log right after `npm outdated`. The answer is whether any entry committed |
| Node.NodeUpdater.UpdateDependencies | req_update/node.py:56-64 | the unpinned pass runs first (its `which npm` opens the log), then the pinned pass from its `npm outdated` at position `mid`, as a `PinnedPass` over the tree the unpinned pass left and the log up to `mid`. Both passes always run, and the answer is whether the unpinned pass committed or an entry of the pinned pass did |
| Node.StepsLog | req_update/node.py:89-98 | a run of `update_package` calls only appends to the log, and it contains a commit exactly when one of the calls answered that it committed |
| GitSubmodule.TagPosition | req_update/gitsubmodule.py:88 | `re.search` finds the leftmost match, or none |
| GitSubmodule.TagRun | req_update/gitsubmodule.py:88 | the greedy `[v0-9\.]+` takes the longest prefix of tag characters |
| GitSubmodule.TagSearch | req_update/gitsubmodule.py:88-92 | no tag exactly when the pattern occurs nowhere; a tag found is a non-empty run of tag characters |
| GitSubmodule.TagSearchFinds | req_update/gitsubmodule.py:88-90 | the captured name sits right after the leftmost `tag: ` |
| GitSubmodule.VersionInfoOfShow | req_update/gitsubmodule.py:86-99 | on `git show` output the version is the tag named in the refs line, or else the hash; the date is the parsed third line |
| GitSubmodule.ChooseVersion | req_update/gitsubmodule.py:101-116 | no version without remote information; otherwise the tag's or the commit's name |
| GitSubmodule.ChooseTagWindow | req_update/gitsubmodule.py:105-112 | with both present the tag wins exactly when the commit is less than thirty days newer; a commit exactly thirty days newer wins |
| GitSubmodule.ChooseNewerTag | req_update/gitsubmodule.py:105-112 | a tag at least as new as the commit is chosen, and stays chosen when the commit moves back in time |
| GitSubmodule.SubmodulePath | req_update/gitsubmodule.py:44 | the path is the second space-separated piece of the stripped line; a line without a space raises `IndexError` |
| GitSubmodule.SubmodulePathsAll | req_update/gitsubmodule.py:41-46 | the listing reads without error exactly when every non-empty line has a path, and then gives one path per non-empty line |
| GitSubmodule.SubmodulePathOfStatus | req_update/gitsubmodule.py:44 | a `git submodule` status line reads back its path |
| GitSubmodule.LastTag | req_update/gitsubmodule.py:71-73 | none when `git tag` prints only whitespace; otherwise the last line of the stripped output: the whole of it, or what follows its last newline |
| GitSubmodule.Submodule.constructor | req_update/gitsubmodule.py:124-127 | a new submodule has no remote information |
| GitSubmodule.GitSubmoduleUpdater.constructor | req_update/gitsubmodule.py:12 | the updater reads `git show` output, submodule lines and `git tag` output with `VersionInfoOf`, `SubmodulePath` and `LastTag` |
| GitSubmodule.GitSubmoduleUpdater.CheckApplicable | req_update/gitsubmodule.py:13-23 | applies exactly when `git submodule` succeeds and prints something |
| GitSubmodule.GitSubmoduleUpdater.GetSubmoduleInfo | req_update/gitsubmodule.py:37-47 | one new submodule per non-empty line, with that line's path |
| GitSubmodule.GitSubmoduleUpdater.NewSubmodules | req_update/gitsubmodule.py:41-46 | the loop builds one fresh submodule per path read |
| GitSubmodule.GitSubmoduleUpdater.ShowVersion | req_update/gitsubmodule.py:57-66 | one `git show` and its reading |
| GitSubmodule.GitSubmoduleUpdater.GetRemoteCommit | req_update/gitsubmodule.py:56-66 | the version information of `origin` |
| GitSubmodule.GitSubmoduleUpdater.GetRemoteTag | req_update/gitsubmodule.py:68-83 | none when `git tag` prints nothing; otherwise the version information of the last tag listed; no commit |
| GitSubmodule.GitSubmoduleUpdater.AnnotateSubmodule | req_update/gitsubmodule.py:49-54 | fetches, then records the remote commit read from `git show origin` and the remote tag: none when `git tag` lists nothing, and otherwise what `git show` of the last tag listed reads as. The first failing command's error propagates; no commit |
| GitSubmodule.GitSubmoduleUpdater.UpdateSubmodule | req_update/gitsubmodule.py:101-119 | checks out the chosen version once, and nothing without remote information; no commit |
| GitSubmodule.GitSubmoduleUpdater.VisitSubmodule | req_update/gitsubmodule.py:28-32 | one pass of the loop: annotate the submodule, then check out the chosen version; no commit |
| GitSubmodule.GitSubmoduleUpdater.UpdateDependencies | req_update/gitsubmodule.py:25-34 | visits every submodule `git submodule` lists, in order: fetch, remote commit, remote tag, then the checkout of the version chosen from them, each visit taking the log from one recorded state to the next. Nothing is committed and the answer is always "no updates" |
| Orchestrator.UpdaterNames | req_update/req_update.py:143-145 | the lower-cased class names, in `UPDATERS` order |
| Orchestrator.UpdaterNamesDistinct | req_update/req_update.py:33-41 | the names are distinct, so a filter selects at most one updater |
| Orchestrator.Chosen | req_update/req_update.py:71-73 | only updaters that the filter selects, from the list |
| Orchestrator.Ran | req_update/req_update.py:70-85 | only selected, applicable updaters, from the list |
| Orchestrator.StepProbes | req_update/req_update.py:71-74 | a pass probes the updater exactly when the filter selects it |
| Orchestrator.StepUpdates | req_update/req_update.py:74-85 | a pass runs the updater exactly when it is selected and applicable and the branch could be created |
| Orchestrator.StepNext | req_update/req_update.py:74-88 | after a pass that lets the loop go on, a branch exists once an updater ran and changes are recorded once reported |
| Orchestrator.StepBranch | req_update/req_update.py:82-84 | a pass creates the branch once, before running the updater, and only when none exists |
| Orchestrator.ScanFlags | req_update/req_update.py:64-88 | after the loop, a branch exists exactly when some updater ran, and changes are reported exactly when some updater that ran reported them |
| Orchestrator.ScanNames | req_update/req_update.py:70-88 | a completed loop probes exactly the selected updaters and runs exactly the selected applicable ones, in order |
| Orchestrator.ScanProbesPrefix | req_update/req_update.py:70-74 | even a loop that raises probes only selected updaters, in order |
| Orchestrator.ScanUpdatesPrefix | req_update/req_update.py:70-85 | even a loop that raises runs only selected, applicable updaters, in order |
| Orchestrator.ScanQuiet | req_update/req_update.py:70-88 | the loop neither checks cleanliness nor rolls back |
| Orchestrator.ScanBranchOnce | req_update/req_update.py:82-84 | the loop creates the branch at most once, and only when some updater runs |
| Orchestrator.ScanBranchFirst | req_update/req_update.py:82-85 | no updater runs before the branch exists |
| Orchestrator.MainDirty | req_update/req_update.py:65-68 | a dirty repository stops the run before any updater is probed, unless cleanliness is ignored |
| Orchestrator.MainResult | req_update/req_update.py:86-91 | `main` returns whether some updater that ran reported changes |
| Orchestrator.MainRollback | req_update/req_update.py:89-90 | the branch is rolled back exactly when the loop completed after some updater ran and none reported changes |
| Orchestrator.MainEvents | req_update/req_update.py:58-91 | a run that passes the cleanliness check is that check, the loop, and the rollback if any |
| Orchestrator.MainBranch | req_update/req_update.py:64-84 | the branch is created at most once, only when some updater runs, and before every updater that runs |
| Orchestrator.MainNames | req_update/req_update.py:70-88 | only selected updaters are probed and only applicable ones run, in `UPDATERS` order; a run that returns probed every selected one and ran every applicable one |
| Orchestrator.ReqUpdate.constructor | req_update/req_update.py:49-56 | one updater per entry of `UPDATERS`, in order |
| Orchestrator.ReqUpdate.Visit | req_update/req_update.py:71-88 | one pass of the loop appends the events of `Step`: probe when selected, create the branch once, run when applicable, warn when it reports nothing |
| Orchestrator.ReqUpdate.Loop | req_update/req_update.py:69-88 | the loop appends the events of `Scan` from no branch and no changes, and ends with its flags or its exception; `Scan`'s properties are the Scan lemmas above |
| Orchestrator.ReqUpdate.Run | req_update/req_update.py:58-91 | `main` appends the events of `MainTrace` and returns or raises as it does; `MainTrace`'s properties are the Main lemmas above |

## Left out

- `pip_update/` and `go.py` are not part of this model. The Go updater appears in the
  orchestrator only by name, with abstract answers. Its constructor takes no `util`
  argument (req_update/go.py:11-13), so `ReqUpdate()` as written would fail when it builds
  the updaters; the orchestrator model assumes every updater can be built.
- The command line (`get_args`, argparse) is left out. Its results enter as the constructor
  parameters of `Shell.Util` and `Orchestrator.ReqUpdate`.
- Logging (`info`, `warn`, `debug`, `log`), the colour codes and `NO_COLOR` are left out: they
  only print. The orchestrator keeps its warnings as events.
- Subprocesses, the network, `json.loads`/`json.dumps` and `datetime.fromisoformat` are
  parameters (`shell`, `network`, `decode`, `encode`, `parseDate`); their behaviour is not
  modelled.
- The working directory (`os.listdir('.')`, `open`) is the key set and contents of a map.
  Paths are not normalised, and `Path(line)` is the string itself. In particular
  `GitSubmodule.SubmodulePath` keeps an empty second field as `''` and a trailing `/`, where
  `Path` (req_update/gitsubmodule.py:44) would give `.` and drop the slash.
- `Versions.SelectNewest`: the contract says the choice is the original or an upgrade of it
  that no candidate improves on. It does not say which of two candidates that compare equal
  (the same digit runs, spelled differently, such as `3.010` and `3.10`) is chosen, where the
  strict comparison in req_update/docker.py:113-116 keeps the first.
- Reads do no newline translation. Python's text-mode `open` turns `\r\n` and `\r` into
  `\n` when reading, and writes `\n`. The model splits the stored contents on `\n` only, so
  a manifest or Dockerfile with CRLF endings keeps its `\r` in the lines and in what is
  written back, where the source would write it back with LF endings.
- `Shell.Util.ResetChanges`: `git checkout .` restores the tracked files from the index. The
  model instead takes the tree to restore from its caller: the Node updater passes the tree
  as it was before its own write. The two agree when the run began with a clean tree and
  every earlier change was committed. When cleanliness is ignored, the checkout would also
  discard the user's unrelated changes, and the model does not capture that.
- `check_major_version_update` only warns. The Node updater's call is modelled as the
  `AttributeError` a non-string old version raises; the warning text is left out.
- The orchestrator abstracts each updater as the answers of its `check_applicable` and
  `update_dependencies`. The outcomes of the cleanliness check, `create_branch` and
  `rollback_branch` are parameters of `Orchestrator.ReqUpdate.Run`.
- Regular expressions and `str.lower` work on ASCII only. Python's `\d` and `lower()` also
  cover other Unicode digits and letters.
- Duplicate keys in a JSON object are not modelled: the first entry is the one read.
- The iteration order of the set of updated Python files is not fixed. `Python.Enumerate` picks
  some order, and the results hold for every order.
- Dates are whole seconds. Time zones and the parsing of the ISO date are inside `parseDate`.
- Python.Python.UpdateDependencies: does not model the source as written. It uses the corrected
  steps (`UpdateDependenciesFile`, `InstallUpdates`) that the findings below describe.
- Docker.ImageUpdater.FindUpdatedVersion: does not model the cache read as written
  (req_update/docker.py:86-87). It uses the corrected `Docker.KnownAnswer` of the findings below.
- `Docker.ImageUpdater.UpdateDrone`: models only the per-line loop over `.drone.yml`, with the
  lines as a parameter. As written, `Drone.UPDATE_FILE` is a string (req_update/drone.py:7), so
  the inherited `get_update_files` raises `AttributeError` on `.match` whenever `git ls-files`
  succeeds (req_update/docker.py:31). `Drone.update_dependencies` also calls
  `read_update_file()` without its path (req_update/drone.py:15), which raises `TypeError`.
  `GetUpdateFiles`, `CheckApplicable` and `UpdateDependencies` of `Docker.ImageUpdater`
  therefore require a kind other than Drone. In the orchestrator, the Drone entry's
  `check_applicable` answer is a parameter; in a git repository it is that `AttributeError`,
  so a run without a language filter raises at the Drone probe.
- The network parameter always answers with a status and a body. A failure without an HTTP
  status (`URLError`: connection refused, a DNS failure) is not modelled. req_update/docker.py:103-107
  catches only `HTTPError`, and req_update/githubworkflow.py:26 only `HTTPError` and
  `JSONDecodeError`, so such a failure would propagate out of the updater and out of `main`.
- `PipOutput.Keyed`: raises `TypeError` at the first entry whose `name` is not a string. Python's
  `sorted` raises only when it compares two incomparable keys, so a list such as one entry with
  a numeric name sorts without error there. `pip list --format=json` writes only string fields.
- `PipOutput.OutdatedSorted`: its failure condition inherits the eager `TypeError` of `Keyed`
  for a `name` that is not a string.
- `Python.Python.UpdatePackage`: a `latest_version` that is not a string raises `TypeError`
  before any manifest is read. In the source the version is used only when a line of some
  manifest pins the package: a package that no manifest pins answers no update, and otherwise
  the value is formatted with `%s` into the line, with `len(version)` raising only for a line
  that carries a comment. `pip` writes only string fields.
- Shell.Util.RequestTwice: says nothing about the second answer when the first request
  failed, because a failure is not cached and the second fetch may answer differently.

## Findings

| source | as written | input that shows it | evidently intended | confidence | as-written member | corrected member |
|---|---|---|---|---|---|---|
| req_update/python.py:94 | `self.util.log(...)` calls a method `Util` does not have, so the first outdated package raises `AttributeError` | any non-empty `pip list --outdated` output | log the dependency with `info` and go on updating | not executed | Python.Python.UpdateDependenciesFileAsWritten | Python.Python.UpdateDependenciesFile |
| req_update/python.py:228 | the same `self.util.log(...)` call ends `install_updates` with `AttributeError` after the first updated file | any run in which a file was updated | log with `info` and reinstall every updated file | not executed | Python.Python.InstallUpdatesAsWritten | Python.Python.InstallUpdates |
| req_update/docker.py:86-87 | a version cached in `known_versions` is returned for any later original version of the same image, even when it is older than that original | `FROM python:3.11` whose lookup finds no newer tag (so `3.11` is cached), then `FROM python:3.12` in the same run: the second line is rewritten down to `python:3.11` | use the cached version only when it is an upgrade of the current original, and ask the registry otherwise | not executed | Docker.KnownAnswerAsWrittenDowngrades | Docker.KnownAnswerDiffers |
