/** The edit `write_dependency_update` makes to the requirement files of req_update/python.py:
    the rewrite of the first changing line of a buffer, and the files after every manifest has
    been edited. */
module PythonEdit {
  import opened Wrappers
  import opened Text
  import opened RequirementLine

  /** A rewrite of one line of a manifest of the given kind: for a package and a version, the
      new line, or `None` when the line is left alone. The updater uses `RequirementLine.Rewrite`;
      the buffer and file reasoning here holds for any rewrite. */
  type LineRewrite = (FileType, string, string, string) -> Option<string>

  /** The first line that `edit` changes. */
  function FirstChange(lines: seq<string>, edit: string -> Option<string>): (r: Option<nat>)
    ensures r.Some? ==> r.value < |lines| && edit(lines[r.value]).Some?
    ensures r.Some? ==> forall j :: 0 <= j < r.value ==> edit(lines[j]).None?
    ensures r.None? ==> forall j :: 0 <= j < |lines| ==> edit(lines[j]).None?
  {
    if lines == [] then None
    else if edit(lines[0]).Some? then Some(0)
    else
      match FirstChange(lines[1..], edit)
      case None => None
      case Some(k) =>
        assert forall j :: 1 <= j < |lines| ==> lines[j] == lines[1..][j - 1];
        Some(k + 1)
  }

  /** The rewrite `write_dependency_update_lines` tries on every line. */
  function LineEdit(rewrite: LineRewrite, kind: FileType, dependency: string, version: string): string -> Option<string> {
    line => rewrite(kind, line, dependency, version)
  }

  /** The first line of the buffer that the rewrite for `dependency` changes. */
  function FirstRewrite(rewrite: LineRewrite, kind: FileType, lines: seq<string>, dependency: string, version: string): Option<nat> {
    FirstChange(lines, LineEdit(rewrite, kind, dependency, version))
  }

  /** A line the rewrite leaves alone extends a run of such lines. */
  lemma NoRewriteExtends(rewrite: LineRewrite, kind: FileType, lines: seq<string>, i: nat, dependency: string, version: string)
    requires i < |lines| && rewrite(kind, lines[i], dependency, version).None?
    requires forall j :: 0 <= j < i ==> rewrite(kind, lines[j], dependency, version).None?
    ensures forall j :: 0 <= j < i + 1 ==> rewrite(kind, lines[j], dependency, version).None?
  {
  }

  /** When `edit` changes no line, there is no first change. */
  lemma FirstChangeNone(lines: seq<string>, edit: string -> Option<string>)
    requires forall j :: 0 <= j < |lines| ==> edit(lines[j]).None?
    ensures FirstChange(lines, edit).None?
  {
  }

  /** A line that `edit` changes, after lines it leaves alone, is the first change. */
  lemma FirstChangeAt(lines: seq<string>, edit: string -> Option<string>, i: nat)
    requires i < |lines| && edit(lines[i]).Some?
    requires forall j :: 0 <= j < i ==> edit(lines[j]).None?
    ensures FirstChange(lines, edit) == Some(i)
  {
  }

  /** The first line the rewrite changes is the one `FirstRewrite` finds. */
  lemma FirstRewriteAt(rewrite: LineRewrite, kind: FileType, lines: seq<string>, i: nat, dependency: string, version: string)
    requires i < |lines| && rewrite(kind, lines[i], dependency, version).Some?
    requires forall j :: 0 <= j < i ==> rewrite(kind, lines[j], dependency, version).None?
    ensures FirstRewrite(rewrite, kind, lines, dependency, version) == Some(i)
  {
    var edit := LineEdit(rewrite, kind, dependency, version);
    forall j | 0 <= j <= i ensures edit(lines[j]) == rewrite(kind, lines[j], dependency, version) {
    }
    FirstChangeAt(lines, edit, i);
  }

  /** When the rewrite changes no line, `FirstRewrite` finds none. */
  lemma FirstRewriteNone(rewrite: LineRewrite, kind: FileType, lines: seq<string>, dependency: string, version: string)
    requires forall j :: 0 <= j < |lines| ==> rewrite(kind, lines[j], dependency, version).None?
    ensures FirstRewrite(rewrite, kind, lines, dependency, version).None?
  {
    var edit := LineEdit(rewrite, kind, dependency, version);
    forall j | 0 <= j < |lines| ensures edit(lines[j]).None? {
    }
    FirstChangeNone(lines, edit);
  }

  /** The buffer after the edit: the first line the rewrite changes is replaced. */
  function Rewritten(rewrite: LineRewrite, kind: FileType, lines: seq<string>, dependency: string, version: string): seq<string> {
    match FirstRewrite(rewrite, kind, lines, dependency, version)
    case None => lines
    case Some(i) => lines[i := rewrite(kind, lines[i], dependency, version).value]
  }

  /** A rewrite that never answers with the line it was given. */
  ghost predicate ChangesOnly(rewrite: LineRewrite) {
    forall kind, line, dependency, version ::
      rewrite(kind, line, dependency, version).Some? ==> rewrite(kind, line, dependency, version).value != line
  }

  /** The updater's rewrite answers only with a changed line. */
  lemma RewriteChangesOnly()
    ensures ChangesOnly(Rewrite)
  {
  }

  /** The edit changes at most one line, and changes one exactly when some line matches the
      dependency with a different version. */
  lemma RewrittenChangesOneLine(rewrite: LineRewrite, kind: FileType, lines: seq<string>, dependency: string, version: string)
    requires ChangesOnly(rewrite)
    ensures |Rewritten(rewrite, kind, lines, dependency, version)| == |lines|
    ensures Rewritten(rewrite, kind, lines, dependency, version) == lines <==>
            forall j :: 0 <= j < |lines| ==> rewrite(kind, lines[j], dependency, version).None?
    ensures forall j :: 0 <= j < |lines| && Rewritten(rewrite, kind, lines, dependency, version)[j] != lines[j] ==>
              FirstRewrite(rewrite, kind, lines, dependency, version) == Some(j)
  {
    var f := FirstRewrite(rewrite, kind, lines, dependency, version);
    if f.Some? {
      var r := Rewritten(rewrite, kind, lines, dependency, version);
      assert r[f.value] != lines[f.value];
    }
  }

  // ---------------------------------------------------------------------------------------
  // The files
  // ---------------------------------------------------------------------------------------

  /** Whether editing `path` changes a line: a missing file reads as no lines. */
  predicate FileChanged(rewrite: LineRewrite, files: map<string, string>, path: string, kind: FileType, dependency: string, version: string) {
    path in files && FirstRewrite(rewrite, kind, Lines(files[path]), dependency, version).Some?
  }

  /** The files after `edit_requirements` on `path`: the buffer is written back unless in
      dry-run mode or the buffer is empty. */
  function Edited(rewrite: LineRewrite, files: map<string, string>, path: string, kind: FileType, dependency: string, version: string,
                  dryRun: bool): map<string, string> {
    if dryRun || path !in files || Lines(files[path]) == [] then files
    else files[path := Concat(Rewritten(rewrite, kind, Lines(files[path]), dependency, version))]
  }

  /** The files after editing every manifest of `ms`, in order. */
  function EditAll(rewrite: LineRewrite, files: map<string, string>, ms: seq<(string, FileType)>, dependency: string, version: string,
                   dryRun: bool): map<string, string> {
    if ms == [] then files
    else
      var last := ms[|ms| - 1];
      Edited(rewrite, EditAll(rewrite, files, ms[..|ms| - 1], dependency, version, dryRun), last.0, last.1, dependency, version, dryRun)
  }

  /** The paths of the manifests of `ms` that `keep` selects. */
  function SelectedPaths(ms: seq<(string, FileType)>, keep: (string, FileType) -> bool): set<string> {
    if ms == [] then {}
    else
      var last := ms[|ms| - 1];
      SelectedPaths(ms[..|ms| - 1], keep) + (if keep(last.0, last.1) then {last.0} else {})
  }

  /** A path is selected exactly when one of the manifests names it and `keep` holds for it. */
  lemma {:induction false} SelectedPathsMeaning(ms: seq<(string, FileType)>, keep: (string, FileType) -> bool, p: string)
    ensures p in SelectedPaths(ms, keep) <==> exists k :: 0 <= k < |ms| && ms[k].0 == p && keep(p, ms[k].1)
  {
    if ms != [] {
      var init := ms[..|ms| - 1];
      SelectedPathsMeaning(init, keep, p);
      if p in SelectedPaths(init, keep) {
        var k :| 0 <= k < |init| && init[k].0 == p && keep(p, init[k].1);
        assert ms[k] == init[k];
      }
      if exists k :: 0 <= k < |ms| && ms[k].0 == p && keep(p, ms[k].1) {
        var k :| 0 <= k < |ms| && ms[k].0 == p && keep(p, ms[k].1);
        if k < |init| {
          assert init[k] == ms[k];
        }
      }
    }
  }

  /** The manifests of `ms` whose edit changes a line. */
  function ChangedPaths(rewrite: LineRewrite, files: map<string, string>, ms: seq<(string, FileType)>, dependency: string,
                        version: string): set<string> {
    SelectedPaths(ms, (path, kind) => FileChanged(rewrite, files, path, kind, dependency, version))
  }

  /** A path is reported changed exactly when one of the manifests names it and its edit changes
      a line. */
  lemma ChangedPathsMeaning(rewrite: LineRewrite, files: map<string, string>, ms: seq<(string, FileType)>, dependency: string,
                            version: string, p: string)
    ensures p in ChangedPaths(rewrite, files, ms, dependency, version) <==>
            exists k :: 0 <= k < |ms| && ms[k].0 == p && FileChanged(rewrite, files, p, ms[k].1, dependency, version)
  {
    SelectedPathsMeaning(ms, (path, kind) => FileChanged(rewrite, files, path, kind, dependency, version), p);
  }

  /** The paths the manifests name. */
  function Paths(ms: seq<(string, FileType)>): set<string> {
    set k | 0 <= k < |ms| :: ms[k].0
  }

  /** Only manifests are reported changed. */
  lemma ChangedPathsWithin(rewrite: LineRewrite, files: map<string, string>, ms: seq<(string, FileType)>,
                           dependency: string, version: string)
    ensures ChangedPaths(rewrite, files, ms, dependency, version) <= Paths(ms)
  {
    forall p | p in ChangedPaths(rewrite, files, ms, dependency, version) ensures p in Paths(ms) {
      ChangedPathsMeaning(rewrite, files, ms, dependency, version, p);
    }
  }

  /** No two manifests share a path. */
  predicate DistinctPaths(ms: seq<(string, FileType)>) {
    forall j, k :: 0 <= j < k < |ms| ==> ms[j].0 != ms[k].0
  }

  /** An edit never creates a file, touches only its own path, and leaves a file whose lines
      it does not change exactly as it was. */
  lemma EditedFrame(rewrite: LineRewrite, files: map<string, string>, path: string, kind: FileType, dependency: string, version: string,
                    dryRun: bool)
    ensures Edited(rewrite, files, path, kind, dependency, version, dryRun).Keys == files.Keys
    ensures forall q :: q in files && q != path ==> Edited(rewrite, files, path, kind, dependency, version, dryRun)[q] == files[q]
    ensures path in files && !FileChanged(rewrite, files, path, kind, dependency, version) ==>
              Edited(rewrite, files, path, kind, dependency, version, dryRun)[path] == files[path]
    ensures dryRun ==> Edited(rewrite, files, path, kind, dependency, version, dryRun) == files
  {
    if path in files && !FileChanged(rewrite, files, path, kind, dependency, version) {
      LinesConcat(files[path]);
    }
  }

  /** Editing other paths leaves `p` alone. */
  lemma {:induction false} EditAllOther(rewrite: LineRewrite, files: map<string, string>, ms: seq<(string, FileType)>, dependency: string,
                                        version: string, dryRun: bool, p: string)
    requires forall k :: 0 <= k < |ms| ==> ms[k].0 != p
    ensures p in EditAll(rewrite, files, ms, dependency, version, dryRun) <==> p in files
    ensures p in files ==> EditAll(rewrite, files, ms, dependency, version, dryRun)[p] == files[p]
  {
    if ms != [] {
      var init := ms[..|ms| - 1];
      var last := ms[|ms| - 1];
      EditAllOther(rewrite, files, init, dependency, version, dryRun, p);
      EditedFrame(rewrite, EditAll(rewrite, files, init, dependency, version, dryRun), last.0, last.1, dependency, version, dryRun);
    }
  }

  /** Editing the manifests creates no file, and in dry-run mode changes nothing. */
  lemma {:induction false} EditAllKeys(rewrite: LineRewrite, files: map<string, string>, ms: seq<(string, FileType)>, dependency: string,
                                       version: string, dryRun: bool)
    ensures EditAll(rewrite, files, ms, dependency, version, dryRun).Keys == files.Keys
    ensures dryRun ==> EditAll(rewrite, files, ms, dependency, version, dryRun) == files
  {
    if ms != [] {
      var init := ms[..|ms| - 1];
      var last := ms[|ms| - 1];
      EditAllKeys(rewrite, files, init, dependency, version, dryRun);
      EditedFrame(rewrite, EditAll(rewrite, files, init, dependency, version, dryRun), last.0, last.1, dependency, version, dryRun);
    }
  }

  /** Adding the paths one manifest changed to those changed so far. */
  lemma UnionStep(before: set<string>, so: set<string>, here: set<string>)
    ensures before + (so + here) == before + so + here
    ensures so + here != {} <==> so != {} || here != {}
  {
  }

  /** One step of editing the manifests in turn: the manifest at `i` is read as it was before any
      edit, since the earlier ones have other paths. */
  lemma EditStep(rewrite: LineRewrite, files: map<string, string>, ms: seq<(string, FileType)>, i: nat, dependency: string, version: string,
                 dryRun: bool)
    requires DistinctPaths(ms) && i < |ms|
    ensures var current := EditAll(rewrite, files, ms[..i], dependency, version, dryRun);
            (FileChanged(rewrite, current, ms[i].0, ms[i].1, dependency, version) <==>
             FileChanged(rewrite, files, ms[i].0, ms[i].1, dependency, version)) &&
            EditAll(rewrite, files, ms[..i + 1], dependency, version, dryRun) ==
              Edited(rewrite, current, ms[i].0, ms[i].1, dependency, version, dryRun) &&
            ChangedPaths(rewrite, files, ms[..i + 1], dependency, version) ==
              ChangedPaths(rewrite, files, ms[..i], dependency, version) +
              (if FileChanged(rewrite, files, ms[i].0, ms[i].1, dependency, version) then {ms[i].0} else {})
  {
    forall k | 0 <= k < |ms[..i]| ensures ms[..i][k].0 != ms[i].0 {
      assert ms[..i][k] == ms[k];
    }
    EditAllOther(rewrite, files, ms[..i], dependency, version, dryRun, ms[i].0);
    assert ms[..i + 1][..i] == ms[..i];
    assert ms[..i + 1][i] == ms[i];
  }
}
