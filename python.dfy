/** The Python updater of `req_update/python.py`: it asks pip for the outdated packages, rewrites
    their pins in `requirements.txt`, `requirements-test.txt` and `pyproject.toml`, commits each
    updated package and finally reinstalls from the files it changed. */
module Python {
  import opened Wrappers
  import opened Text
  import opened JsonValue
  import opened Shell
  import opened RequirementLine
  import opened PythonEdit
  import opened PipOutput
  import opened PyprojectGroups

  const RequirementsFiles: seq<string> := ["requirements.txt", "requirements-test.txt"]
  const PyprojectFiles: seq<string> := ["pyproject.toml"]

  /** The files `write_dependency_update` edits, in the order it edits them. */
  const Manifests: seq<(string, FileType)> :=
    [("requirements.txt", Requirements), ("requirements-test.txt", Requirements), ("pyproject.toml", Pyproject)]

  /** `type(self).__name__`, the language named in commit messages. */
  const Language: string := "Python"

  function InstallRequirementsCommand(path: string): Invocation { Invocation(["pip", "install", "-r", path], None) }
  function InstallEditableCommand(): Invocation { Invocation(["pip", "install", "-e", "."], None) }

  /** The commands `install_updates` runs for `pyproject.toml`: an editable install, then one
      install per optional group of the file. */
  function PyprojectCommands(path: string, files: map<string, string>): seq<Invocation> {
    [InstallEditableCommand()] + (if path in files then GroupCommands(OptionalGroups(Lines(files[path]))) else [])
  }

  /** The commands `install_updates` runs for one updated file. */
  function InstallCommands(path: string, files: map<string, string>): seq<Invocation> {
    if path in RequirementsFiles then [InstallRequirementsCommand(path)]
    else if path in PyprojectFiles then PyprojectCommands(path, files)
    else []
  }

  /** The commands `install_updates` runs for the updated files in the order `paths`. */
  function AllInstallCommands(paths: seq<string>, files: map<string, string>): seq<Invocation> {
    if paths == [] then []
    else AllInstallCommands(paths[..|paths| - 1], files) + InstallCommands(paths[|paths| - 1], files)
  }

  lemma AllInstallCommandsStep(paths: seq<string>, path: string, files: map<string, string>)
    ensures AllInstallCommands(paths + [path], files) == AllInstallCommands(paths, files) + InstallCommands(path, files)
  {
    assert (paths + [path])[..|paths|] == paths;
  }

  /** No element occurs twice. */
  predicate Distinct<T(==)>(s: seq<T>) {
    forall j, k :: 0 <= j < k < |s| ==> s[j] != s[k]
  }

  /** The elements of a sequence, as a set. */
  function Elements<T>(s: seq<T>): set<T> {
    set x | x in s
  }

  lemma ElementsAppend<T>(s: seq<T>, x: T)
    ensures Elements(s + [x]) == Elements(s) + {x}
  {
  }

  lemma DistinctAppend<T>(s: seq<T>, x: T)
    requires Distinct(s) && x !in Elements(s)
    ensures Distinct(s + [x])
  {
  }

  /** The elements of `s` in an order the set does not fix, as iterating over a Python set. */
  method Enumerate(s: set<string>) returns (order: seq<string>)
    ensures Distinct(order) && Elements(order) == s
  {
    order := [];
    var remaining := s;
    while remaining != {}
      invariant remaining <= s
      invariant Elements(order) == s - remaining
      invariant Distinct(order)
      decreases remaining
    {
      var x :| x in remaining;
      DistinctAppend(order, x);
      ElementsAppend(order, x);
      order := order + [x];
      remaining := remaining - {x};
    }
  }

  /** Installing runs pip only, never a commit. */
  lemma InstallNeverCommits(path: string, files: map<string, string>)
    ensures forall c :: c in InstallCommands(path, files) ==> c.command != [] && c.command[0] == "pip" && !IsCommit(c)
  {
  }

  /** Reinstalling the updated files, in any order, runs pip only and never commits. */
  lemma {:induction false} AllInstallNeverCommits(paths: seq<string>, files: map<string, string>)
    ensures forall c :: c in AllInstallCommands(paths, files) ==> c.command != [] && c.command[0] == "pip" && !IsCommit(c)
  {
    if paths != [] {
      AllInstallNeverCommits(paths[..|paths| - 1], files);
      InstallNeverCommits(paths[|paths| - 1], files);
    }
  }

  // ---------------------------------------------------------------------------------------
  // One outdated package
  // ---------------------------------------------------------------------------------------

  /** `outdated['latest_version']`, used as the new version string. */
  function LatestVersion(entry: Json): (r: Result<string>)
    ensures r.Ok? <==> Get(entry, "latest_version").Ok? && Get(entry, "latest_version").value.Str?
    ensures r.Ok? ==> r.value == Get(entry, "latest_version").value.s
  {
    match Get(entry, "latest_version")
    case Err(e) => Err(e)
    case Ok(v) => AsString(v)
  }

  /** What the loop of `update_dependencies_file` works on: the working tree, the command log
      and the manifests updated so far. */
  datatype PackageState = PackageState(files: map<string, string>, log: seq<Invocation>, updated: set<string>)

  /** One completed pass of the loop for the package `dependency` with pip's entry `entry`: the
      manifests are edited to its latest version, the changed ones are remembered, and exactly
      when one changed a commit with the package's message follows. `committed` is the answer. */
  predicate PackageStep(rewrite: LineRewrite, dryRun: bool, dependency: string, entry: Json,
                        before: PackageState, after: PackageState, committed: bool) {
    && LatestVersion(entry).Ok?
    && var v := LatestVersion(entry).value;
       var changed := ChangedPaths(rewrite, before.files, Manifests, dependency, v);
       && after.files == EditAll(rewrite, before.files, Manifests, dependency, v, dryRun)
       && after.updated == before.updated + changed
       && (committed <==> changed != {})
       && (!committed ==> after.log == before.log)
       && (committed ==>
             && |before.log| < |after.log| && after.log[..|before.log|] == before.log
             && after.log[|before.log|] == CommitCommand(CommitMessage(Language, dependency, v)))
  }

  /** The passes over `packages`, in order: pass `i` takes `states[i]` to `states[i + 1]` and
      answers `outcomes[i]`. */
  predicate PackageSteps(rewrite: LineRewrite, dryRun: bool, packages: seq<Package>,
                         states: seq<PackageState>, outcomes: seq<bool>) {
    && |states| == |packages| + 1 && |outcomes| == |packages|
    && forall i :: 0 <= i < |packages| ==>
         PackageStep(rewrite, dryRun, packages[i].0, packages[i].1, states[i], states[i + 1], outcomes[i])
  }

  lemma PackageStepsSnoc(rewrite: LineRewrite, dryRun: bool, packages: seq<Package>, i: nat,
                         states: seq<PackageState>, outcomes: seq<bool>, next: PackageState, committed: bool)
    requires i < |packages| && PackageSteps(rewrite, dryRun, packages[..i], states, outcomes)
    requires PackageStep(rewrite, dryRun, packages[i].0, packages[i].1, states[i], next, committed)
    ensures PackageSteps(rewrite, dryRun, packages[..i + 1], states + [next], outcomes + [committed])
  {
    var ps, ss, os := packages[..i + 1], states + [next], outcomes + [committed];
    forall j | 0 <= j < |ps| ensures PackageStep(rewrite, dryRun, ps[j].0, ps[j].1, ss[j], ss[j + 1], os[j]) {
      if j < i {
        assert ps[j] == packages[..i][j] && ss[j] == states[j] && ss[j + 1] == states[j + 1] && os[j] == outcomes[j];
      }
    }
  }

  // ---------------------------------------------------------------------------------------
  // The updater
  // ---------------------------------------------------------------------------------------

  class Python {
    const util: Util
    /** The line rewrite of `write_dependency_update_lines`, `RequirementLine.Rewrite`. */
    const rewrite: LineRewrite
    /** The manifests changed so far; a set, so its iteration order is not determined. */
    var updatedFiles: set<string>

    constructor(util: Util)
      ensures this.util == util && rewrite == Rewrite && updatedFiles == {}
    {
      this.util := util;
      rewrite := Rewrite;
      updatedFiles := {};
    }

    /** `check_applicable`: pip answers `pip --version` with a major version of at least 9 and
        one of the manifests is present. */
    method CheckApplicable() returns (applicable: bool)
      modifies util`issued
      ensures util.issued == old(util.issued) + [PipVersionCommand()]
      ensures var o := util.Run(|old(util.issued)|, PipVersionCommand(), true, false);
              applicable <==> o.Ok? && PipMajor(o.value.stdout).Some? && PipMajor(o.value.stdout).value >= 9 &&
                              exists k :: 0 <= k < |Manifests| && Manifests[k].0 in util.files
    {
      var result := util.ExecuteShell(PipVersionCommand().command, true, None, false);
      if result.Err? {
        return false;
      }
      var major := PipMajor(result.value.stdout);
      if major.None? || major.value < 9 {
        return false;
      }
      applicable := HasManifest();
    }

    /** The `for ... else` of `check_applicable`: some requirements or pyproject file is in the
        working directory. */
    method HasManifest() returns (found: bool)
      ensures found <==> exists k :: 0 <= k < |Manifests| && Manifests[k].0 in util.files
    {
      var k := 0;
      while k < |Manifests|
        invariant 0 <= k <= |Manifests|
        invariant forall j :: 0 <= j < k ==> Manifests[j].0 !in util.files
      {
        if Manifests[k].0 in util.files {
          return true;
        }
        k := k + 1;
      }
      return false;
    }

    /** `get_pip_outdated`: the outdated packages sorted by name. */
    method GetPipOutdated() returns (r: Result<seq<Package>>)
      modifies util`issued
      ensures util.issued == old(util.issued) + [PipListCommand()]
      ensures var o := util.Run(|old(util.issued)|, PipListCommand(), true, false);
              r == if o.Err? then Err(o.error)
                   else if util.decode(o.value.stdout).None? then Err(DecodeError)
                   else Outdated(util.decode(o.value.stdout).value)
    {
      var result := util.ExecuteShell(PipListCommand().command, true, None, false);
      if result.Err? {
        return Err(result.error);
      }
      var decoded := util.decode(result.value.stdout);
      if decoded.None? {
        return Err(DecodeError);
      }
      r := Outdated(decoded.value);
    }

    /** `write_dependency_update_lines`: rewrite the first line that pins `dependency` to another
        version, and say whether one was rewritten. */
    method WriteDependencyUpdateLines(dependency: string, version: string, lines: array<string>, kind: FileType)
      returns (updated: bool)
      modifies lines
      ensures updated <==> FirstRewrite(rewrite, kind, old(lines[..]), dependency, version).Some?
      ensures lines[..] == Rewritten(rewrite, kind, old(lines[..]), dependency, version)
    {
      ghost var original := lines[..];
      var i := 0;
      while i < lines.Length
        invariant 0 <= i <= lines.Length
        invariant lines[..] == original
        invariant forall j :: 0 <= j < i ==> rewrite(kind, original[j], dependency, version).None?
      {
        var newLine := rewrite(kind, lines[i], dependency, version);
        if newLine.Some? {
          FirstRewriteAt(rewrite, kind, original, i, dependency, version);
          lines[i] := newLine.value;
          return true;
        }
        NoRewriteExtends(rewrite, kind, original, i, dependency, version);
        i := i + 1;
      }
      FirstRewriteNone(rewrite, kind, original, dependency, version);
      return false;
    }

    /** `edit_requirements` around `write_dependency_update_lines` for one manifest. */
    method EditRequirements(path: string, kind: FileType, dependency: string, version: string) returns (changed: bool)
      modifies util`files
      ensures changed == FileChanged(rewrite, old(util.files), path, kind, dependency, version)
      ensures util.files == Edited(rewrite, old(util.files), path, kind, dependency, version, util.dryRun)
    {
      var content := util.ReadFile(path);
      var buffer := if content.Ok? then Lines(content.value) else [];
      var lines := new string[|buffer|](k requires 0 <= k < |buffer| => buffer[k]);
      assert lines[..] == buffer;
      changed := WriteDependencyUpdateLines(dependency, version, lines, kind);
      if !util.dryRun && lines.Length > 0 {
        util.WriteFile(path, Concat(lines[..]));
      }
    }

    /** `write_dependency_update`: edit every manifest in turn, remember the ones that changed, and
        say whether any did. */
    method WriteDependencyUpdate(dependency: string, version: string) returns (updated: bool)
      modifies this`updatedFiles, util`files
      ensures updated <==> ChangedPaths(rewrite, old(util.files), Manifests, dependency, version) != {}
      ensures updatedFiles == old(updatedFiles) + ChangedPaths(rewrite, old(util.files), Manifests, dependency, version)
      ensures util.files == EditAll(rewrite, old(util.files), Manifests, dependency, version, util.dryRun)
    {
      updated := EditEach(Manifests, dependency, version);
    }

    /** The loop of `write_dependency_update` over a list of manifests with distinct paths. */
    method EditEach(ms: seq<(string, FileType)>, dependency: string, version: string) returns (updated: bool)
      requires DistinctPaths(ms)
      modifies this`updatedFiles, util`files
      ensures updated <==> ChangedPaths(rewrite, old(util.files), ms, dependency, version) != {}
      ensures updatedFiles == old(updatedFiles) + ChangedPaths(rewrite, old(util.files), ms, dependency, version)
      ensures util.files == EditAll(rewrite, old(util.files), ms, dependency, version, util.dryRun)
    {
      ghost var start, paths := util.files, updatedFiles;
      updated := false;
      var i := 0;
      while i < |ms|
        invariant 0 <= i <= |ms|
        invariant util.files == EditAll(rewrite, start, ms[..i], dependency, version, util.dryRun)
        invariant updated <==> ChangedPaths(rewrite, start, ms[..i], dependency, version) != {}
        invariant updatedFiles == paths + ChangedPaths(rewrite, start, ms[..i], dependency, version)
      {
        ghost var so := ChangedPaths(rewrite, start, ms[..i], dependency, version);
        ghost var here := if FileChanged(rewrite, start, ms[i].0, ms[i].1, dependency, version) then {ms[i].0} else {};
        EditStep(rewrite, start, ms, i, dependency, version, util.dryRun);
        UnionStep(paths, so, here);
        var changed := EditRequirements(ms[i].0, ms[i].1, dependency, version);
        assert util.files == EditAll(rewrite, start, ms[..i + 1], dependency, version, util.dryRun);
        assert changed <==> here != {};
        if changed {
          updatedFiles := updatedFiles + {ms[i].0};
          updated := true;
        }
        assert updatedFiles == paths + (so + here);
        i := i + 1;
      }
      assert ms[..i] == ms;
    }

    /** `update_dependencies_file` as `req_update/python.py` writes it: the call to `util.log`
        names a method `Util` does not have, so the first outdated package raises
        `AttributeError` before any file is touched. */
    method UpdateDependenciesFileAsWritten() returns (r: Result<bool>)
      modifies util`issued
      ensures util.issued == old(util.issued) + [PipListCommand()]
      ensures r.Ok? ==> !r.value
      ensures var o := util.Run(|old(util.issued)|, PipListCommand(), true, false);
              var d := if o.Ok? then util.decode(o.value.stdout) else None;
              d.Some? && Outdated(d.value).Ok? && Outdated(d.value).value != [] ==> r == Err(AttributeError)
    {
      var outdated := GetPipOutdated();
      if outdated.Err? {
        return Err(outdated.error);
      }
      if outdated.value != [] {
        return Err(AttributeError);
      }
      return Ok(false);
    }

    /** The body of the loop of `update_dependencies_file` for one outdated package: read its
        latest version, edit the manifests, and commit when one changed. The result says whether
        a commit was made. */
    method UpdatePackage(dependency: string, entry: Json) returns (r: Result<bool>)
      modifies util`issued, util`files, this`updatedFiles
      ensures |old(util.issued)| <= |util.issued| && util.issued[..|old(util.issued)|] == old(util.issued)
      ensures r.Ok? ==> (r.value <==> HasCommit(util.issued[|old(util.issued)|..]))
      ensures old(updatedFiles) <= updatedFiles <= old(updatedFiles) + Paths(Manifests)
      ensures util.dryRun ==> util.files == old(util.files)
      ensures LatestVersion(entry).Err? ==>
                && r == Err(LatestVersion(entry).error)
                && util.issued == old(util.issued) && util.files == old(util.files) && updatedFiles == old(updatedFiles)
      ensures LatestVersion(entry).Ok? ==>
                var v := LatestVersion(entry).value;
                && util.files == EditAll(rewrite, old(util.files), Manifests, dependency, v, util.dryRun)
                && updatedFiles == old(updatedFiles) + ChangedPaths(rewrite, old(util.files), Manifests, dependency, v)
      ensures r.Ok? ==> PackageStep(rewrite, util.dryRun, dependency, entry,
                                    old(PackageState(util.files, util.issued, updatedFiles)),
                                    PackageState(util.files, util.issued, updatedFiles), r.value)
    {
      var latest := Get(entry, "latest_version");
      if latest.Err? {
        return Err(latest.error);
      }
      var version := AsString(latest.value);
      if version.Err? {
        return Err(version.error);
      }
      ChangedPathsWithin(rewrite, util.files, Manifests, dependency, version.value);
      EditAllKeys(rewrite, util.files, Manifests, dependency, version.value, util.dryRun);
      var written := WriteDependencyUpdate(dependency, version.value);
      if !written {
        assert util.issued[|old(util.issued)|..] == [];
        return Ok(false);
      }
      var committed := util.CommitDependencyUpdate(Language, dependency, version.value);
      if committed.Err? {
        return Err(committed.error);
      }
      assert util.issued[|old(util.issued)|..][0] == CommitCommand(CommitMessage(Language, dependency, version.value));
      r := Ok(true);
    }

    /** The loop of `update_dependencies_file` over the sorted outdated `packages`: entry `i`
        is one `UpdatePackage` step from `states[i]` to `states[i + 1]`, the first error
        propagates, and the answer is whether any entry committed. */
    method UpdateEachPackage(packages: seq<Package>)
      returns (r: Result<bool>, ghost states: seq<PackageState>, ghost outcomes: seq<bool>)
      modifies util`issued, util`files, this`updatedFiles
      ensures |old(util.issued)| <= |util.issued| && util.issued[..|old(util.issued)|] == old(util.issued)
      ensures r.Ok? ==> (r.value <==> HasCommit(util.issued[|old(util.issued)|..]))
      ensures old(updatedFiles) <= updatedFiles <= old(updatedFiles) + Paths(Manifests)
      ensures util.dryRun ==> util.files == old(util.files)
      ensures r.Ok? ==>
                && PackageSteps(rewrite, util.dryRun, packages, states, outcomes)
                && states[0] == PackageState(old(util.files), old(util.issued), old(updatedFiles))
                && states[|packages|] == PackageState(util.files, util.issued, updatedFiles)
                && (r.value <==> true in outcomes)
    {
      var n := |util.issued|;
      ghost var start := PackageState(util.files, util.issued, updatedFiles);
      states, outcomes := [start], [];
      var clean := true;
      var i := 0;
      while i < |packages|
        invariant 0 <= i <= |packages|
        invariant n <= |util.issued| && util.issued[..n] == old(util.issued)
        invariant !clean <==> HasCommit(util.issued[n..])
        invariant old(updatedFiles) <= updatedFiles <= old(updatedFiles) + Paths(Manifests)
        invariant util.dryRun ==> util.files == old(util.files)
        invariant PackageSteps(rewrite, util.dryRun, packages[..i], states, outcomes)
        invariant states[0] == start && states[i] == PackageState(util.files, util.issued, updatedFiles)
        invariant !clean <==> true in outcomes
      {
        ghost var before := util.issued;
        var committed := UpdatePackage(packages[i].0, packages[i].1);
        if committed.Err? {
          return Err(committed.error), states, outcomes;
        }
        HasCommitSplit(util.issued, n, |before|);
        assert util.issued[n..|before|] == before[n..];
        assert util.issued[..n] == before[..n];
        PackageStepsSnoc(rewrite, util.dryRun, packages, i, states, outcomes,
                         PackageState(util.files, util.issued, updatedFiles), committed.value);
        states, outcomes := states + [PackageState(util.files, util.issued, updatedFiles)], outcomes + [committed.value];
        if committed.value {
          clean := false;
        }
        i := i + 1;
      }
      assert packages[..i] == packages;
      r := Ok(!clean);
    }

    /** `update_dependencies_file` without the call to the missing `util.log`: for each outdated
        package in name order, edit the manifests and commit when one changed. The result says
        whether any commit was made. On success, `packages` is the sorted `pip list` reply and
        pass `i` over `packages[i]` takes `states[i]` to `states[i + 1]`. */
    method UpdateDependenciesFile()
      returns (r: Result<bool>, ghost packages: seq<Package>, ghost states: seq<PackageState>, ghost outcomes: seq<bool>)
      modifies util`issued, util`files, this`updatedFiles
      ensures |old(util.issued)| < |util.issued| && util.issued[|old(util.issued)|] == PipListCommand()
      ensures util.issued[..|old(util.issued)|] == old(util.issued)
      ensures r.Ok? ==> (r.value <==> HasCommit(util.issued[|old(util.issued)| + 1..]))
      ensures old(updatedFiles) <= updatedFiles <= old(updatedFiles) + Paths(Manifests)
      ensures util.dryRun ==> util.files == old(util.files)
      ensures r.Ok? ==>
                var o := util.Run(|old(util.issued)|, PipListCommand(), true, false);
                && o.Ok? && util.decode(o.value.stdout).Some? && Outdated(util.decode(o.value.stdout).value) == Ok(packages)
                && PackageSteps(rewrite, util.dryRun, packages, states, outcomes)
                && states[0] == PackageState(old(util.files), old(util.issued) + [PipListCommand()], old(updatedFiles))
                && states[|packages|] == PackageState(util.files, util.issued, updatedFiles)
                && (r.value <==> true in outcomes)
    {
      var n := |util.issued|;
      var outdated := GetPipOutdated();
      assert util.issued[..n] == old(util.issued);
      if outdated.Err? {
        return Err(outdated.error), [], [PackageState(util.files, util.issued, updatedFiles)], [];
      }
      ghost var listed := util.issued;
      packages := outdated.value;
      r, states, outcomes := UpdateEachPackage(outdated.value);
      LogGrew(util.issued, listed, n);
    }

    /** The optional dependency installs of `install_updates`: `pip install -e .[group]` for each
        group in order, until a command fails. */
    method InstallGroups(groups: seq<string>) returns (r: Result<()>)
      modifies util`issued
      ensures r.Ok? ==> util.issued == old(util.issued) + GroupCommands(groups)
    {
      var i := 0;
      while i < |groups|
        invariant 0 <= i <= |groups|
        invariant util.issued == old(util.issued) + GroupCommands(groups[..i])
      {
        var result := util.Execute(GroupCommand(groups[i]), false);
        GroupCommandsStep(groups, i);
        if result.Err? {
          return Err(result.error);
        }
        i := i + 1;
      }
      assert groups[..i] == groups;
      r := Ok(());
    }

    /** The `pyproject.toml` branch of `install_updates`: the editable install, then the file is
        read again and its optional groups are installed. */
    method InstallPyproject(path: string) returns (r: Result<()>)
      modifies util`issued
      ensures r.Ok? ==> util.issued == old(util.issued) + PyprojectCommands(path, util.files)
      ensures path !in util.files ==> r.Err?
    {
      var result := util.Execute(InstallEditableCommand(), false);
      if result.Err? {
        return Err(result.error);
      }
      var content := util.ReadFile(path);
      if content.Err? {
        return Err(content.error);
      }
      var groups := ScanOptionalGroups(Lines(content.value));
      ghost var mid := util.issued;
      assert mid == old(util.issued) + [InstallEditableCommand()];
      r := InstallGroups(groups);
      ghost var tail := GroupCommands(groups);
      assert content.value == util.files[path] && groups == OptionalGroups(Lines(util.files[path]));
      assert PyprojectCommands(path, util.files) == [InstallEditableCommand()] + tail;
      if r.Ok? {
        AppendAssoc(old(util.issued), [InstallEditableCommand()], tail);
      }
    }

    /** The commands for one updated file: `pip install -r` for a requirements file; for
        `pyproject.toml`, `pip install -e .` and then one install per optional group. */
    method InstallFile(path: string) returns (r: Result<()>)
      modifies util`issued
      ensures r.Ok? ==> util.issued == old(util.issued) + InstallCommands(path, util.files)
      ensures path in PyprojectFiles && path !in util.files ==> r.Err?
    {
      if path in RequirementsFiles {
        var result := util.Execute(InstallRequirementsCommand(path), false);
        r := if result.Err? then Err(result.error) else Ok(());
      } else if path in PyprojectFiles {
        r := InstallPyproject(path);
      } else {
        r := Ok(());
      }
    }

    /** `install_updates` as `req_update/python.py` writes it: after the commands for the first
        updated file, the call to the missing `util.log` raises `AttributeError`, so it never
        succeeds once a file was updated. */
    method InstallUpdatesAsWritten() returns (r: Result<()>)
      modifies util`issued
      ensures r.Ok? <==> updatedFiles == {}
    {
      if updatedFiles == {} {
        return Ok(());
      }
      var path :| path in updatedFiles;
      r := InstallFile(path);
      if r.Ok? {
        r := Err(AttributeError);
      }
    }

    /** `install_updates` without the call to the missing `util.log`: the updated files in an
        order the set does not fix, each with its install commands, stopping at the first
        failure. On success, `order` lists every updated file once, and the commands run are
        those of the files in that order. */
    method InstallUpdates() returns (r: Result<()>, order: seq<string>)
      modifies util`issued
      ensures Distinct(order) && Elements(order) == updatedFiles
      ensures r.Ok? ==> util.issued == old(util.issued) + AllInstallCommands(order, util.files)
    {
      order := Enumerate(updatedFiles);
      var i := 0;
      while i < |order|
        invariant 0 <= i <= |order|
        invariant util.issued == old(util.issued) + AllInstallCommands(order[..i], util.files)
      {
        ghost var done := AllInstallCommands(order[..i], util.files);
        var result := InstallFile(order[i]);
        if result.Err? {
          return Err(result.error), order;
        }
        AppendAssoc(old(util.issued), done, InstallCommands(order[i], util.files));
        AllInstallCommandsStep(order[..i], order[i], util.files);
        assert order[..i + 1] == order[..i] + [order[i]];
        i := i + 1;
      }
      assert order[..i] == order;
      r := Ok(());
    }

    /** `update_dependencies`, using the corrected steps: update and commit, then reinstall when
        something was updated. The result says whether a commit was made. On success, the
        update pass over the sorted `packages` ends at position `mid` of the log, in the state
        `states[|packages|]`; a true answer is followed by the installs of every updated file,
        in the order `order`, and a false one by nothing. */
    method UpdateDependencies()
      returns (r: Result<bool>, ghost packages: seq<Package>, ghost states: seq<PackageState>,
               ghost outcomes: seq<bool>, ghost mid: nat, ghost order: seq<string>)
      modifies util`issued, util`files, this`updatedFiles
      ensures r.Ok? ==> |old(util.issued)| < |util.issued| && (r.value <==> HasCommit(util.issued[|old(util.issued)|..]))
      ensures util.dryRun ==> util.files == old(util.files)
      ensures r.Ok? ==>
                var o := util.Run(|old(util.issued)|, PipListCommand(), true, false);
                && o.Ok? && util.decode(o.value.stdout).Some? && Outdated(util.decode(o.value.stdout).value) == Ok(packages)
                && PackageSteps(rewrite, util.dryRun, packages, states, outcomes)
                && states[0] == PackageState(old(util.files), old(util.issued) + [PipListCommand()], old(updatedFiles))
                && mid <= |util.issued|
                && states[|packages|] == PackageState(util.files, util.issued[..mid], updatedFiles)
                && (r.value <==> true in outcomes)
                && (!r.value ==> mid == |util.issued|)
                && (r.value ==>
                      && Distinct(order) && Elements(order) == updatedFiles
                      && util.issued == util.issued[..mid] + AllInstallCommands(order, util.files))
    {
      var n := |util.issued|;
      var updates;
      updates, packages, states, outcomes := UpdateDependenciesFile();
      mid, order := |util.issued|, [];
      assert util.issued[..mid] == util.issued;
      HasCommitSplit(util.issued, n, n + 1);
      assert util.issued[n..n + 1] == [PipListCommand()];
      if updates.Err? || !updates.value {
        return updates, packages, states, outcomes, mid, order;
      }
      ghost var before := util.issued;
      var installed;
      installed, order := InstallUpdates();
      if installed.Err? {
        return Err(installed.error), packages, states, outcomes, mid, order;
      }
      assert util.issued[..mid] == before;
      HasCommitSplit(util.issued, n, |before|);
      assert util.issued[n..|before|] == before[n..];
      r := Ok(true);
    }
  }

}
