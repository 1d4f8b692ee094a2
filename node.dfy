/** The Node updater (req_update/node.py): `npm update` (or `pnpm update`) for the unpinned
    ranges, then one commit per outdated package whose `package.json` specifier is rewritten to
    a caret range of its latest version, rolled back when npm cannot resolve the result. */
module Node {
  import opened Wrappers
  import opened Text
  import opened JsonValue
  import opened Shell
  import opened NodeVersion

  /** `Updater.language`: the class name. */
  const Language: string := "Node"
  const PackageJson: string := "package.json"
  const Unresolved: string := "Could not resolve dependency"

  function WhichCommand(tool: string): Invocation { Invocation(["which", tool], None) }
  function UpdateCommand(manager: string): Invocation { Invocation([manager, "update"], None) }
  function OutdatedCommand(): Invocation { Invocation(["npm", "outdated", "--json"], None) }
  function InstallCommand(): Invocation { Invocation(["npm", "install"], None) }

  /** The lockfile each package manager needs beside `package.json`. */
  function Lockfile(manager: string): string {
    if manager == "npm" then "package-lock.json" else "pnpm-lock.yaml"
  }

  /** `check_applicable_npm` / `check_applicable_pnpm` after `which`: a failing `which` means
      not applicable; otherwise both files must be in the working directory. */
  function Applicable(which: Result<ShellOutput>, files: map<string, string>, manager: string): (r: Result<bool>)
    ensures which.Ok? ==> r == Ok(PackageJson in files && Lockfile(manager) in files)
    ensures which.Err? && which.error.CommandFailed? ==> r == Ok(false)
    ensures which.Err? && !which.error.CommandFailed? ==> r == Err(which.error)
  {
    match which
    case Err(CommandFailed(_, _, _)) => Ok(false)
    case Err(e) => Err(e)
    case Ok(_) => Ok(PackageJson in files && Lockfile(manager) in files)
  }

  /** `install_dependencies` after `npm install`: `false` when npm reports an unresolvable
      dependency, whether or not it failed; any other failure propagates. */
  function InstallVerdict(o: Result<ShellOutput>): (r: Result<bool>)
    ensures o.Ok? ==> r == Ok(!Text.Contains(o.value.stderr, Unresolved))
    ensures o.Err? && o.error.CommandFailed? && Text.Contains(o.error.stderr, Unresolved) ==> r == Ok(false)
    ensures o.Err? && !(o.error.CommandFailed? && Text.Contains(o.error.stderr, Unresolved)) ==> r == Err(o.error)
  {
    match o
    case Ok(out) => Ok(!Text.Contains(out.stderr, Unresolved))
    case Err(e) => if e.CommandFailed? && Text.Contains(e.stderr, Unresolved) then Ok(false) else Err(e)
  }

  /** `update_package_dependencies`: `dependencies[package_name]` becomes the specifier
      generated from `package['latest']`. */
  function UpdatePackageDependencies(dependencies: seq<(string, Json)>, name: string, package: Json)
    : (r: Result<seq<(string, Json)>>)
    ensures r.Ok? <==> && Get(package, "latest").Ok? && Get(package, "latest").value.Str?
                       && GeneratePackageVersion(Get(package, "latest").value.s).Ok?
    ensures Get(package, "latest").Err? ==> r == Err(Get(package, "latest").error)
    ensures Get(package, "latest").Ok? && !Get(package, "latest").value.Str? ==> r == Err(TypeError)
  {
    var latest :- Get(package, "latest");
    var version :- AsString(latest);
    var specifier :- GeneratePackageVersion(version);
    Ok(Assign(dependencies, name, Str(specifier)))
  }

  /** The specifier `update_package_dependencies` writes for `package`. */
  function Specifier(package: Json): Result<string> {
    var latest :- Get(package, "latest");
    var version :- AsString(latest);
    GeneratePackageVersion(version)
  }

  /** Only the updated package's entry changes: it now holds the generated specifier, every
      other package keeps its specifier, and the keys are the old ones plus the package. */
  lemma UpdateOnlyThePackage(dependencies: seq<(string, Json)>, name: string, package: Json, other: string)
    requires UpdatePackageDependencies(dependencies, name, package).Ok?
    ensures Specifier(package).Ok?
    ensures var r := UpdatePackageDependencies(dependencies, name, package).value;
            && Lookup(r, name) == Some(Str(Specifier(package).value))
            && (other != name ==> Lookup(r, other) == Lookup(dependencies, other))
            && (other in Keys(r) <==> other == name || other in Keys(dependencies))
  {
    var s := Specifier(package).value;
    LookupAssignSame(dependencies, name, Str(s));
    if other != name {
      LookupAssignOther(dependencies, name, Str(s), other);
    }
    KeysAssign(dependencies, name, Str(s));
  }

  /** What `update_package` changes in `package.json`: the new document, the specifier it
      replaced and the one it wrote. */
  datatype Edit = Edit(document: Json, oldVersion: Json, newVersion: string)

  /** One dependency section of `update_package`: the specifier there is replaced. */
  function EditSection(document: Json, section: string, name: string, package: Json): (r: Result<Edit>)
    requires document.Object?
  {
    var dependencies :- Get(document, section);
    var oldVersion :- Get(dependencies, name);
    var updated :- UpdatePackageDependencies(dependencies.entries, name, package);
    Ok(Edit(Object(Assign(document.entries, section, Object(updated))), oldVersion, Specifier(package).value))
  }

  /** The edit `update_package` makes: `dependencies` first, then `devDependencies`; nothing
      when the package is in neither. */
  function PackageEdit(document: Json, name: string, package: Json): (r: Result<Option<Edit>>)
    ensures !document.Object? ==> r == Err(AttributeError)
  {
    var dependencies :- GetOr(document, "dependencies", Object([]));
    var inDependencies :- JsonValue.Contains(dependencies, name);
    if inDependencies then
      var e :- EditSection(document, "dependencies", name, package);
      Ok(Some(e))
    else
      var devDependencies := GetOr(document, "devDependencies", Object([])).value;
      var inDev :- JsonValue.Contains(devDependencies, name);
      if inDev then
        var e :- EditSection(document, "devDependencies", name, package);
        Ok(Some(e))
      else Ok(None)
  }

  /** The value at `key` of a document, when it has one. */
  function Section(document: Json, key: string): Option<Json> {
    if document.Object? then Lookup(document.entries, key) else None
  }

  /** Precedence: a package listed under `dependencies` is edited there, and
      `devDependencies` is left as it was; the new specifier is the generated one. */
  lemma EditPrefersDependencies(document: Json, name: string, package: Json)
    requires document.Object?
    requires Section(document, "dependencies").Some? && Section(document, "dependencies").value.Object?
    requires name in Keys(Section(document, "dependencies").value.entries)
    requires PackageEdit(document, name, package).Ok?
    ensures var e := PackageEdit(document, name, package).value;
            && e.Some?
            && Section(e.value.document, "devDependencies") == Section(document, "devDependencies")
            && Section(e.value.document, "dependencies").Some?
            && Section(e.value.document, "dependencies").value.Object?
            && Lookup(Section(e.value.document, "dependencies").value.entries, name) == Some(Str(e.value.newVersion))
  {
    var dependencies := Section(document, "dependencies").value;
    assert GetOr(document, "dependencies", Object([])) == Ok(dependencies);
    var updated := UpdatePackageDependencies(dependencies.entries, name, package).value;
    UpdateOnlyThePackage(dependencies.entries, name, package, name);
    LookupAssignSame(document.entries, "dependencies", Object(updated));
    LookupAssignOther(document.entries, "dependencies", Object(updated), "devDependencies");
  }

  /** A package under `devDependencies` only is edited there, and `dependencies` is left as it
      was. */
  lemma EditFallsBackToDev(document: Json, name: string, package: Json)
    requires document.Object?
    requires Section(document, "dependencies").None? ||
             (Section(document, "dependencies").value.Object? &&
              name !in Keys(Section(document, "dependencies").value.entries))
    requires Section(document, "devDependencies").Some? && Section(document, "devDependencies").value.Object?
    requires name in Keys(Section(document, "devDependencies").value.entries)
    requires PackageEdit(document, name, package).Ok?
    ensures var e := PackageEdit(document, name, package).value;
            && e.Some?
            && Section(e.value.document, "dependencies") == Section(document, "dependencies")
            && Section(e.value.document, "devDependencies").Some?
            && Section(e.value.document, "devDependencies").value.Object?
            && Lookup(Section(e.value.document, "devDependencies").value.entries, name) == Some(Str(e.value.newVersion))
  {
    var dev := Section(document, "devDependencies").value;
    assert GetOr(document, "devDependencies", Object([])) == Ok(dev);
    var updated := UpdatePackageDependencies(dev.entries, name, package).value;
    UpdateOnlyThePackage(dev.entries, name, package, name);
    LookupAssignSame(document.entries, "devDependencies", Object(updated));
    LookupAssignOther(document.entries, "devDependencies", Object(updated), "dependencies");
  }

  /** A package in neither section is not edited. */
  lemma EditNeither(document: Json, name: string, package: Json)
    requires document.Object?
    requires forall section :: section in ["dependencies", "devDependencies"] ==>
               Section(document, section).None? ||
               (Section(document, section).value.Object? && name !in Keys(Section(document, section).value.entries))
    ensures PackageEdit(document, name, package) == Ok(None)
  {
    assert "dependencies" in ["dependencies", "devDependencies"];
    assert "devDependencies" in ["dependencies", "devDependencies"];
  }

  /** The manager `update_unpinned_dependencies` picks from the two applicability checks:
      npm first, then pnpm, none when neither applies. */
  function Choose(npm: Result<bool>, pnpm: Result<bool>): (r: Result<Option<string>>)
    ensures r == Ok(Some("npm")) <==> npm == Ok(true)
    ensures r == Ok(Some("pnpm")) <==> npm == Ok(false) && pnpm == Ok(true)
    ensures r == Ok(None) <==> npm == Ok(false) && pnpm == Ok(false)
  {
    var useNpm :- npm;
    if useNpm then Ok(Some("npm"))
    else
      var usePnpm :- pnpm;
      if usePnpm then Ok(Some("pnpm")) else Ok(None)
  }

  /** `package.json` as `update_package` reads it, and the edit it then makes. */
  function PlannedEdit(content: Result<string>, decode: string -> Option<Json>,
                       edit: (Json, string, Json) -> Result<Option<Edit>>, name: string, package: Json)
    : (r: Result<Option<Edit>>)
    ensures content.Err? ==> r == Err(content.error)
    ensures content.Ok? && decode(content.value).None? ==> r == Err(DecodeError)
    ensures content.Ok? && decode(content.value).Some? ==> r == edit(decode(content.value).value, name, package)
  {
    var text :- content;
    match decode(text)
    case None => Err(DecodeError)
    case Some(document) => edit(document, name, package)
  }

  /** The outcome of the rollback after a conflict: `false`, unless the reset itself failed. */
  function RolledBack(reset: Result<()>): Result<bool> {
    if reset.Ok? then Ok(false) else Err(reset.error)
  }

  /** No command of the Node updater other than the commit itself is a commit. */
  lemma NotCommits()
    ensures !IsCommit(InstallCommand()) && !IsCommit(ResetCommand()) && !IsCommit(OutdatedCommand())
    ensures forall tool :: !IsCommit(WhichCommand(tool)) && !IsCommit(UpdateCommand(tool))
    ensures !IsCommit(StatusCommand()) && !IsCommit(PushCommand())
  {
  }

  /** A stretch of the log made only of commands that are not commits. */
  lemma NoCommitIn(log: seq<Invocation>, n: nat)
    requires n <= |log|
    requires forall k :: n <= k < |log| ==> !IsCommit(log[k])
    ensures !HasCommit(log[n..])
  {
    forall k | 0 <= k < |log[n..]|
      ensures !IsCommit(log[n..][k])
    {
      assert log[n..][k] == log[n + k];
    }
  }

  /** A log that ends in a commit has one. */
  lemma CommitAt(log: seq<Invocation>, n: nat, k: nat)
    requires n <= k < |log| && IsCommit(log[k])
    ensures HasCommit(log[n..])
  {
    assert log[n..][k - n] == log[k];
  }

  /** `open(path).read()` on the working tree `files`. */
  function ReadIn(files: map<string, string>, path: string): (r: Result<string>)
    ensures r.Ok? <==> path in files
    ensures r.Ok? ==> r.value == files[path]
    ensures r.Err? ==> r.error == FileNotFound(path)
  {
    if path in files then Ok(files[path]) else Err(FileNotFound(path))
  }

  /** What the loop of `update_pinned_dependencies` works on: the working tree and the command
      log. */
  datatype NodeState = NodeState(files: map<string, string>, log: seq<Invocation>)

  /** One completed call of `update_package` for `name`: the edit planned from `package.json`
      either changes nothing, or is written and followed by `npm install` as `InstallStep`
      says. */
  predicate PackageStep(util: Util, edit: (Json, string, Json) -> Result<Option<Edit>>,
                        name: string, package: Json, before: NodeState, after: NodeState, committed: bool) {
    var p := PlannedEdit(ReadIn(before.files, PackageJson), util.decode, edit, name, package);
    && p.Ok?
    && |before.log| <= |after.log| && after.log[..|before.log|] == before.log
    && (committed <==> HasCommit(after.log[|before.log|..]))
    && (p.value.None? ==> !committed && after == before)
    && (p.value.Some? ==> InstallStep(util, name, p.value.value, before, after, committed))
  }

  /** Any call of `ApplyEdit` for edit `e`, answering `r`: `npm install` comes right after
      the write, and its verdict decides the rest. An install npm could not resolve is reset,
      which puts `package.json` back; an old version that is not a string fails before the
      commit; otherwise the package's commit comes right after the install. */
  predicate Applied(util: Util, name: string, e: Edit, before: NodeState, after: NodeState, r: Result<bool>) {
    var n := |before.log|;
    var verdict := InstallVerdict(util.Run(n, InstallCommand(), false, false));
    && n < |after.log| && after.log[..n] == before.log && after.log[n] == InstallCommand()
    && after.files == (if util.dryRun || r == Ok(false) then before.files
                       else before.files[PackageJson := util.encode(e.document) + "\n"])
    && (r.Ok? ==> (r.value <==> HasCommit(after.log[n..])))
    && (verdict.Err? ==> r == Err(verdict.error) && after.log == before.log + [InstallCommand()])
    && (verdict == Ok(false) ==>
          && after.log == before.log + [InstallCommand(), ResetCommand()]
          && r == RolledBack(Done(util.Run(n + 1, ResetCommand(), false, false))))
    && (verdict == Ok(true) && !e.oldVersion.Str? ==>
          r == Err(AttributeError) && after.log == before.log + [InstallCommand()])
    && (verdict == Ok(true) && e.oldVersion.Str? ==>
          n + 1 < |after.log| && after.log[n + 1] == CommitCommand(CommitMessage(Language, name, e.newVersion)))
  }

  /** A completed install of edit `e`: `npm install` comes first and its verdict decides the
      rest. When npm could not resolve the result, the changes are reset (which puts
      `package.json` back) and nothing is committed; otherwise the old version was a string and
      the package's commit comes right after the install, with the edit staying written outside
      a dry run. */
  predicate InstallStep(util: Util, name: string, e: Edit, before: NodeState, after: NodeState, committed: bool) {
    var n := |before.log|;
    var verdict := InstallVerdict(util.Run(n, InstallCommand(), false, false));
    && n < |after.log| && after.log[n] == InstallCommand()
    && after.files == (if util.dryRun || !committed then before.files
                       else before.files[PackageJson := util.encode(e.document) + "\n"])
    && verdict.Ok?
    && (!verdict.value ==>
          && !committed && after.log == before.log + [InstallCommand(), ResetCommand()]
          && Done(util.Run(n + 1, ResetCommand(), false, false)).Ok?)
    && (verdict.value ==>
          && committed && e.oldVersion.Str? && n + 1 < |after.log|
          && after.log[n + 1] == CommitCommand(CommitMessage(Language, name, e.newVersion)))
  }

  /** The calls over `entries`, in order: call `i` takes `states[i]` to `states[i + 1]` and
      answers `outcomes[i]`. */
  predicate PackageSteps(util: Util, edit: (Json, string, Json) -> Result<Option<Edit>>,
                         entries: seq<(string, Json)>, states: seq<NodeState>, outcomes: seq<bool>) {
    && |states| == |entries| + 1 && |outcomes| == |entries|
    && forall i :: 0 <= i < |entries| ==>
         PackageStep(util, edit, entries[i].0, entries[i].1, states[i], states[i + 1], outcomes[i])
  }

  lemma PackageStepsSnoc(util: Util, edit: (Json, string, Json) -> Result<Option<Edit>>,
                         entries: seq<(string, Json)>, i: nat, states: seq<NodeState>, outcomes: seq<bool>,
                         next: NodeState, committed: bool)
    requires i < |entries| && PackageSteps(util, edit, entries[..i], states, outcomes)
    requires PackageStep(util, edit, entries[i].0, entries[i].1, states[i], next, committed)
    ensures PackageSteps(util, edit, entries[..i + 1], states + [next], outcomes + [committed])
  {
    var es, ss, os := entries[..i + 1], states + [next], outcomes + [committed];
    forall j | 0 <= j < |es|
      ensures PackageStep(util, edit, es[j].0, es[j].1, ss[j], ss[j + 1], os[j])
    {
      if j < i {
        assert es[j] == entries[..i][j] && ss[j] == states[j] && ss[j + 1] == states[j + 1] && os[j] == outcomes[j];
      }
    }
  }

  /** A completed pinned pass whose `npm outdated` is at position `n` of the log: `entries` are
      the packages of the decoded report (none when it is empty), and the calls of
      `update_package` over them take `start` to `end`; the pass answers `updated` exactly when
      one of them committed. */
  predicate PinnedPass(util: Util, edit: (Json, string, Json) -> Result<Option<Edit>>, n: nat,
                       entries: seq<(string, Json)>, states: seq<NodeState>, outcomes: seq<bool>,
                       start: NodeState, end: NodeState, updated: bool) {
    var o := util.Run(n, OutdatedCommand(), true, true);
    && o.Ok? && util.decode(o.value.stdout).Some?
    && (Truthy(util.decode(o.value.stdout).value) ==>
          util.decode(o.value.stdout).value.Object? && entries == util.decode(o.value.stdout).value.entries)
    && (!Truthy(util.decode(o.value.stdout).value) ==> entries == [])
    && PackageSteps(util, edit, entries, states, outcomes)
    && states[0] == start && states[|entries|] == end
    && (updated <==> true in outcomes)
  }

  /** A run of `update_package` calls only appends to the log, and it committed exactly when
      one of its calls did. */
  lemma {:induction false} StepsLog(util: Util, edit: (Json, string, Json) -> Result<Option<Edit>>,
                                    entries: seq<(string, Json)>, states: seq<NodeState>, outcomes: seq<bool>)
    requires PackageSteps(util, edit, entries, states, outcomes)
    ensures var first, last := states[0].log, states[|entries|].log;
            && |first| <= |last| && last[..|first|] == first
            && (true in outcomes <==> HasCommit(last[|first|..]))
  {
    if entries != [] {
      var k := |entries| - 1;
      var es, ss, os := entries[..k], states[..k + 1], outcomes[..k];
      forall j | 0 <= j < |es|
        ensures PackageStep(util, edit, es[j].0, es[j].1, ss[j], ss[j + 1], os[j])
      {
        assert es[j] == entries[j] && ss[j] == states[j] && ss[j + 1] == states[j + 1] && os[j] == outcomes[j];
      }
      StepsLog(util, edit, es, ss, os);
      assert PackageStep(util, edit, entries[k].0, entries[k].1, states[k], states[k + 1], outcomes[k]);
      var first, mid, last := states[0].log, states[k].log, states[k + 1].log;
      LogGrew(last, mid, |first|);
      HasCommitSplit(last, |first|, |mid|);
      assert last[|first|..|mid|] == mid[|first|..];
      assert outcomes == os + [outcomes[k]];
    }
  }

  class NodeUpdater {
    const util: Util
    /** The `package.json` edit, `PackageEdit`. */
    const edit: (Json, string, Json) -> Result<Option<Edit>>

    constructor(util: Util)
      ensures this.util == util && edit == PackageEdit
    {
      this.util := util;
      edit := PackageEdit;
    }

    /** `check_applicable_npm` and `check_applicable_pnpm`. */
    method CheckManager(manager: string) returns (r: Result<bool>)
      modifies util`issued
      ensures util.issued == old(util.issued) + [WhichCommand(manager)]
      ensures r == Applicable(util.Run(|old(util.issued)|, WhichCommand(manager), true, false), util.files, manager)
    {
      var which := util.Execute(WhichCommand(manager), true);
      if which.Err? {
        if which.error.CommandFailed? {
          return Ok(false);
        }
        return Err(which.error);
      }
      r := Ok(PackageJson in util.files && Lockfile(manager) in util.files);
    }

    /** `check_applicable`: npm, or else pnpm. */
    method CheckApplicable() returns (r: Result<bool>)
      modifies util`issued
      ensures var npm := Applicable(util.Run(|old(util.issued)|, WhichCommand("npm"), true, false), util.files, "npm");
              var pnpm := Applicable(util.Run(|old(util.issued)| + 1, WhichCommand("pnpm"), true, false), util.files, "pnpm");
              && (npm != Ok(false) ==> r == npm && util.issued == old(util.issued) + [WhichCommand("npm")])
              && (npm == Ok(false) ==> r == pnpm && util.issued == old(util.issued) + [WhichCommand("npm"), WhichCommand("pnpm")])
    {
      r := CheckManager("npm");
      if r.Err? || r.value {
        return;
      }
      r := CheckManager("pnpm");
    }

    /** The manager choice at the start of `update_unpinned_dependencies`. */
    method ChooseManager() returns (r: Result<Option<string>>)
      modifies util`issued
      ensures r == ChoiceAt(|old(util.issued)|)
      ensures util.issued == old(util.issued) + [WhichCommand("npm")] +
                (if Applicable(util.Run(|old(util.issued)|, WhichCommand("npm"), true, false), util.files, "npm") == Ok(false)
                 then [WhichCommand("pnpm")] else [])
    {
      var npm := CheckManager("npm");
      if npm.Err? {
        return Err(npm.error);
      }
      if npm.value {
        return Ok(Some("npm"));
      }
      var pnpm := CheckManager("pnpm");
      if pnpm.Err? {
        return Err(pnpm.error);
      }
      r := if pnpm.value then Ok(Some("pnpm")) else Ok(None);
    }

    /** The choice `update_unpinned_dependencies` makes when its checks start at position `n`
        of the log. */
    function ChoiceAt(n: nat): Result<Option<string>>
      reads util
    {
      Choose(Applicable(util.Run(n, WhichCommand("npm"), true, false), util.files, "npm"),
             Applicable(util.Run(n + 1, WhichCommand("pnpm"), true, false), util.files, "pnpm"))
    }

    /** The body of `update_unpinned_dependencies` once `manager` is chosen: update, then
        commit when the working tree is dirty. The result says whether it committed; a dry run
        never does. */
    method UpdateWith(manager: string) returns (r: Result<bool>)
      modifies util`issued
      ensures |old(util.issued)| < |util.issued| && util.issued[..|old(util.issued)|] == old(util.issued)
      ensures util.issued[|old(util.issued)|] == UpdateCommand(manager)
      ensures r.Ok? ==> (r.value <==> HasCommit(util.issued[|old(util.issued)|..]))
      ensures util.dryRun && r.Ok? ==> !r.value
      ensures r == Ok(true) ==> CommitCommand("Update " + manager + " packages") in util.issued
    {
      ghost var n := |util.issued|;
      NotCommits();
      var updated := util.Execute(UpdateCommand(manager), false);
      if updated.Err? {
        NoCommitIn(util.issued, n);
        return Err(updated.error);
      }
      ghost var mid := util.issued;
      var clean := util.CheckRepositoryCleanliness();
      NoCommitIn(util.issued, n);
      if clean.Err? {
        return Err(clean.error);
      }
      if clean.value {
        return Ok(false);
      }
      ghost var before := util.issued;
      var committed := util.CommitGit("Update " + manager + " packages");
      assert util.issued[|before|] == CommitCommand("Update " + manager + " packages");
      CommitAt(util.issued, n, |before|);
      if committed.Err? {
        return Err(committed.error);
      }
      r := Ok(true);
    }

    /** `update_unpinned_dependencies`: the first applicable manager updates within the ranges,
        and a dirty working tree is committed. The result says whether it committed; a dry run
        never does. */
    method UpdateUnpinnedDependencies() returns (r: Result<bool>)
      modifies util`issued
      ensures |old(util.issued)| < |util.issued| && util.issued[..|old(util.issued)|] == old(util.issued)
      ensures util.issued[|old(util.issued)|] == WhichCommand("npm")
      ensures r.Ok? ==> (r.value <==> HasCommit(util.issued[|old(util.issued)|..]))
      ensures util.dryRun && r.Ok? ==> !r.value
      ensures ChoiceAt(|old(util.issued)|).Err? ==> r == Err(ChoiceAt(|old(util.issued)|).error)
      ensures ChoiceAt(|old(util.issued)|) == Ok(None) ==> r == Ok(false)
      ensures ChoiceAt(|old(util.issued)|).Ok? && ChoiceAt(|old(util.issued)|).value.Some? ==>
                UpdateCommand(ChoiceAt(|old(util.issued)|).value.value) in util.issued
      ensures r == Ok(true) ==>
                && ChoiceAt(|old(util.issued)|).Ok? && ChoiceAt(|old(util.issued)|).value.Some?
                && CommitCommand("Update " + ChoiceAt(|old(util.issued)|).value.value + " packages") in util.issued
    {
      ghost var n := |util.issued|;
      NotCommits();
      var choice := ChooseManager();
      if choice.Err? || choice.value.None? {
        NoCommitIn(util.issued, n);
        return if choice.Err? then Err(choice.error) else Ok(false);
      }
      NoCommitIn(util.issued, n);
      ghost var mid := util.issued;
      r := UpdateWith(choice.value.value);
      assert util.issued[|mid|] == UpdateCommand(choice.value.value);
      LogGrew(util.issued, mid, n);
      HasCommitSplit(util.issued, n, |mid|);
      assert util.issued[n..|mid|] == mid[n..];
    }

    /** `get_outdated`: `npm outdated --json`, whose non-zero exit is expected, decoded. */
    method GetOutdated() returns (r: Result<Json>)
      modifies util`issued
      ensures util.issued == old(util.issued) + [OutdatedCommand()]
      ensures var o := util.Run(|old(util.issued)|, OutdatedCommand(), true, true);
              r == if o.Err? then Err(o.error)
                   else if util.decode(o.value.stdout).None? then Err(DecodeError)
                   else Ok(util.decode(o.value.stdout).value)
    {
      var o := util.ExecuteShell(OutdatedCommand().command, true, None, true);
      if o.Err? {
        return Err(o.error);
      }
      var decoded := util.decode(o.value.stdout);
      if decoded.None? {
        return Err(DecodeError);
      }
      r := Ok(decoded.value);
    }

    /** `install_dependencies`. */
    method InstallDependencies() returns (r: Result<bool>)
      modifies util`issued
      ensures util.issued == old(util.issued) + [InstallCommand()]
      ensures r == InstallVerdict(util.Run(|old(util.issued)|, InstallCommand(), false, false))
    {
      var o := util.Execute(InstallCommand(), false);
      r := InstallVerdict(o);
    }

    /** The second half of `update_package`, once the edit is known: write `package.json`
        (unless in a dry run), install, and commit; when npm cannot resolve the result the
        changes are reset, which puts `package.json` back, and nothing is committed. */
    method ApplyEdit(name: string, e: Edit) returns (r: Result<bool>)
      modifies util`issued, util`files
      ensures Applied(util, name, e, old(NodeState(util.files, util.issued)), NodeState(util.files, util.issued), r)
      ensures r.Ok? ==> InstallStep(util, name, e, old(NodeState(util.files, util.issued)), NodeState(util.files, util.issued), r.value)
    {
      ghost var n := |util.issued|;
      var before := util.files;
      NotCommits();
      if !util.dryRun {
        util.WriteFile(PackageJson, util.encode(e.document) + "\n");
      }
      var installed := InstallDependencies();
      if installed.Err? {
        NoCommitIn(util.issued, n);
        return Err(installed.error);
      }
      if !installed.value {
        var reset := util.ResetChanges(before);
        NoCommitIn(util.issued, n);
        return RolledBack(reset);
      }
      if !e.oldVersion.Str? {
        NoCommitIn(util.issued, n);
        return Err(AttributeError);
      }
      var committed := util.CommitDependencyUpdate(Language, name, e.newVersion);
      CommitAt(util.issued, n, n + 1);
      if committed.Err? {
        return Err(committed.error);
      }
      r := Ok(true);
    }

    /** `update_package`: read `package.json` and edit the package's specifier there; a
        package in neither dependency section changes nothing. */
    method UpdatePackage(name: string, package: Json) returns (r: Result<bool>)
      modifies util`issued, util`files
      ensures |old(util.issued)| <= |util.issued| && util.issued[..|old(util.issued)|] == old(util.issued)
      ensures r.Ok? ==> (r.value <==> HasCommit(util.issued[|old(util.issued)|..]))
      ensures util.dryRun ==> util.files == old(util.files)
      ensures var p := PlannedEdit(old(util.ReadFile(PackageJson)), util.decode, edit, name, package);
              && (p.Err? ==> r == Err(p.error) && util.issued == old(util.issued) && util.files == old(util.files))
              && (p == Ok(None) ==> r == Ok(false) && util.issued == old(util.issued) && util.files == old(util.files))
              && (p.Ok? && p.value.Some? ==>
                    Applied(util, name, p.value.value, old(NodeState(util.files, util.issued)),
                            NodeState(util.files, util.issued), r))
      ensures r.Ok? ==> PackageStep(util, edit, name, package,
                                    old(NodeState(util.files, util.issued)), NodeState(util.files, util.issued), r.value)
    {
      var content := util.ReadFile(PackageJson);
      if content.Err? {
        return Err(content.error);
      }
      var document := util.decode(content.value);
      if document.None? {
        return Err(DecodeError);
      }
      var changed := edit(document.value, name, package);
      if changed.Err? {
        return Err(changed.error);
      }
      if changed.value.None? {
        assert util.issued[|util.issued|..] == [];
        return Ok(false);
      }
      r := ApplyEdit(name, changed.value.value);
    }

    /** `update_pinned_dependencies`: update each outdated package in turn; whether any was
        committed. An empty report updates nothing. On success, `entries` are the packages of
        the decoded `npm outdated` report, and call `i` of `update_package` on `entries[i]`
        takes `states[i]` to `states[i + 1]`, answering `outcomes[i]`. */
    method UpdatePinnedDependencies()
      returns (r: Result<bool>, ghost entries: seq<(string, Json)>, ghost states: seq<NodeState>, ghost outcomes: seq<bool>)
      modifies util`issued, util`files
      ensures |old(util.issued)| < |util.issued| && util.issued[..|old(util.issued)|] == old(util.issued)
      ensures util.issued[|old(util.issued)|] == OutdatedCommand()
      ensures r.Ok? ==> (r.value <==> HasCommit(util.issued[|old(util.issued)| + 1..]))
      ensures util.dryRun ==> util.files == old(util.files)
      ensures var o := util.Run(|old(util.issued)|, OutdatedCommand(), true, true);
              o.Ok? && util.decode(o.value.stdout).Some? && !Truthy(util.decode(o.value.stdout).value) ==>
                r == Ok(false) && |util.issued| == |old(util.issued)| + 1
      ensures r.Ok? ==> PinnedPass(util, edit, |old(util.issued)|, entries, states, outcomes,
                                   NodeState(old(util.files), old(util.issued) + [OutdatedCommand()]),
                                   NodeState(util.files, util.issued), r.value)
    {
      var n := |util.issued|;
      var outdated := GetOutdated();
      ghost var start := NodeState(util.files, util.issued);
      states, outcomes := [start], [];
      if outdated.Err? {
        return Err(outdated.error), [], states, outcomes;
      }
      if !Truthy(outdated.value) {
        assert util.issued[n + 1..] == [];
        return Ok(false), [], states, outcomes;
      }
      if !outdated.value.Object? {
        return Err(AttributeError), [], states, outcomes;
      }
      var packages := outdated.value.entries;
      entries := packages;
      var anyUpdated := false;
      var i := 0;
      while i < |packages|
        invariant 0 <= i <= |packages| && entries == packages
        invariant util.dryRun ==> util.files == old(util.files)
        invariant PackageSteps(util, edit, entries[..i], states, outcomes)
        invariant states[0] == start && states[i] == NodeState(util.files, util.issued)
        invariant anyUpdated <==> true in outcomes
      {
        var updated := UpdatePackage(packages[i].0, packages[i].1);
        if updated.Err? {
          StepsLog(util, edit, entries[..i], states, outcomes);
          LogGrew(util.issued, states[i].log, n + 1);
          assert util.issued[..n + 1] == start.log;
          return Err(updated.error), entries, states, outcomes;
        }
        PackageStepsSnoc(util, edit, entries, i, states, outcomes,
                         NodeState(util.files, util.issued), updated.value);
        states, outcomes := states + [NodeState(util.files, util.issued)], outcomes + [updated.value];
        if updated.value {
          anyUpdated := true;
        }
        i := i + 1;
      }
      assert entries[..i] == entries;
      StepsLog(util, edit, entries, states, outcomes);
      assert util.issued[..n + 1] == start.log;
      r := Ok(anyUpdated);
    }

    /** `update_dependencies`: both passes always run, the unpinned one first (its first
        command is `which npm`) and the pinned one from position `mid` of the log (its first
        command is `npm outdated`); the answer is whether either committed. On success the
        pinned pass is the run of `update_package` calls over `entries` that
        `UpdatePinnedDependencies` describes, starting from the log up to `mid` and the tree the
        unpinned pass left untouched. */
    method UpdateDependencies()
      returns (r: Result<bool>, ghost mid: nat, ghost entries: seq<(string, Json)>,
               ghost states: seq<NodeState>, ghost outcomes: seq<bool>)
      modifies util`issued, util`files
      ensures |old(util.issued)| <= |util.issued| && util.issued[..|old(util.issued)|] == old(util.issued)
      ensures |old(util.issued)| < |util.issued| && util.issued[|old(util.issued)|] == WhichCommand("npm")
      ensures r.Ok? ==> |old(util.issued)| < mid < |util.issued| && util.issued[mid] == OutdatedCommand()
      ensures r.Ok? ==> (r.value <==> HasCommit(util.issued[|old(util.issued)|..mid]) ||
                                      HasCommit(util.issued[mid + 1..]))
      ensures r.Ok? ==> (r.value <==> HasCommit(util.issued[|old(util.issued)|..]))
      ensures r.Ok? ==> OutdatedCommand() in util.issued[|old(util.issued)|..]
      ensures util.dryRun ==> util.files == old(util.files)
      ensures r.Ok? ==> && PinnedPass(util, edit, mid, entries, states, outcomes,
                                      NodeState(old(util.files), util.issued[..mid + 1]),
                                      NodeState(util.files, util.issued), true in outcomes)
                        && (r.value <==> HasCommit(util.issued[|old(util.issued)|..mid]) || true in outcomes)
    {
      ghost var n := |util.issued|;
      var unpinned := UpdateUnpinnedDependencies();
      mid := |util.issued|;
      if unpinned.Err? {
        return Err(unpinned.error), mid, [], [], [];
      }
      ghost var midLog := util.issued;
      var pinned;
      pinned, entries, states, outcomes := UpdatePinnedDependencies();
      LogGrew(util.issued, midLog, n);
      if pinned.Err? {
        return Err(pinned.error), mid, entries, states, outcomes;
      }
      assert util.issued[..mid + 1] == midLog + [OutdatedCommand()];
      HasCommitSplit(util.issued, n, mid);
      assert util.issued[n..mid] == midLog[n..];
      HasCommitSplit(util.issued, mid, mid + 1);
      assert util.issued[mid..mid + 1] == [OutdatedCommand()];
      assert util.issued[n..][mid - n] == OutdatedCommand();
      r := Ok(unpinned.value || pinned.value);
    }
  }
}
