/** The git-submodule updater (req_update/gitsubmodule.py): it lists the submodules, reads the
    newest remote commit and the last tag of each, checks out the tag unless the commit is more
    than thirty days newer, and never commits. Dates are whole seconds; the ISO-8601 parser is
    a parameter. */
module GitSubmodule {
  import opened Wrappers
  import opened Text
  import opened Shell

  // ---------------------------------------------------------------------------------------
  // Version information: `get_version_info`
  // ---------------------------------------------------------------------------------------

  /** `VersionInfo`: a commit hash or tag name, and the commit date in seconds. */
  datatype VersionInfo = VersionInfo(name: string, date: int)

  /** `datetime.timedelta(days=30)` in seconds. */
  const ThirtyDays: int := 30 * 86400

  /** The class `[v0-9\.]` of the tag pattern. */
  predicate IsTagChar(c: char) { c == 'v' || IsDigit(c) || c == '.' }

  const TagMarker: string := "tag: "

  /** `tag: ([v0-9\.]+)` matches at `k`: the marker, then at least one tag character. */
  predicate TagAt(s: string, k: nat) {
    k + |TagMarker| < |s| && s[k..k + |TagMarker|] == TagMarker && IsTagChar(s[k + |TagMarker|])
  }

  lemma TagAtShift(s: string, k: nat)
    requires s != []
    ensures TagAt(s[1..], k) <==> TagAt(s, k + 1)
  {
    if k + 1 + |TagMarker| < |s| {
      assert s[1..][k..k + |TagMarker|] == s[k + 1..k + 1 + |TagMarker|];
    }
  }

  /** Where `re.search` finds the pattern: the leftmost match, or none. */
  function TagPosition(s: string): (r: Option<nat>)
    ensures r.Some? ==> TagAt(s, r.value) && forall k :: 0 <= k < r.value ==> !TagAt(s, k)
    ensures r.None? ==> forall k: nat :: !TagAt(s, k)
    decreases |s|
  {
    if |s| <= |TagMarker| then None
    else if TagAt(s, 0) then Some(0)
    else
      match TagPosition(s[1..])
      case None =>
        forall k: nat ensures !TagAt(s, k) {
          if k > 0 { TagAtShift(s, k - 1); }
        }
        None
      case Some(k) =>
        TagAtShift(s, k);
        forall j | 0 <= j < k + 1 ensures !TagAt(s, j) {
          if j > 0 { TagAtShift(s, j - 1); }
        }
        Some(k + 1)
  }

  /** The greedy `[v0-9\.]+`: the longest prefix of tag characters. */
  function TagRun(s: string): (r: string)
    ensures |r| <= |s| && r == s[..|r|]
    ensures forall i :: 0 <= i < |r| ==> IsTagChar(r[i])
    ensures |r| == |s| || !IsTagChar(s[|r|])
  {
    if s == [] || !IsTagChar(s[0]) then []
    else
      var r := [s[0]] + TagRun(s[1..]);
      assert s == [s[0]] + s[1..];
      r
  }

  /** `re.search(r"tag: ([v0-9\.]+)", s).group(1)`, or `None` when there is no match. */
  function TagSearch(s: string): (r: Option<string>)
    ensures r.None? <==> forall k: nat :: !TagAt(s, k)
    ensures r.Some? ==> r.value != [] && forall i :: 0 <= i < |r.value| ==> IsTagChar(r.value[i])
  {
    match TagPosition(s)
    case None => None
    case Some(k) =>
      var v := TagRun(s[k + |TagMarker|..]);
      assert v != [] by { assert IsTagChar(s[k + |TagMarker|..][0]); }
      Some(v)
  }

  /** The captured name sits right after the leftmost marker and runs as far as the tag
      characters go. */
  lemma TagSearchFinds(s: string) returns (k: nat)
    requires TagSearch(s).Some?
    ensures TagAt(s, k) && forall j :: 0 <= j < k ==> !TagAt(s, j)
    ensures var v := TagSearch(s).value;
            && k + |TagMarker| + |v| <= |s| && s[k..k + |TagMarker| + |v|] == TagMarker + v
            && (k + |TagMarker| + |v| == |s| || !IsTagChar(s[k + |TagMarker| + |v|]))
  {
    k := TagPosition(s).value;
    var m := k + |TagMarker|;
    var v := TagSearch(s).value;
    assert v == TagRun(s[m..]);
    assert s[m..][..|v|] == s[m..m + |v|];
    assert s[k..m + |v|] == s[k..m] + s[m..m + |v|];
    if m + |v| < |s| {
      assert s[m..][|v|] == s[m + |v|];
    }
  }

  /** `get_version_info`: the output of `git show --format=%H%n%d%n%cd`, stripped and split into
      lines; the name is the tag captured from the second line, or else the first line; the
      date is the third line. Too few lines raise `IndexError`, a date the parser rejects
      `ValueError`. */
  function VersionInfoOf(commit: string, parseDate: string -> Option<int>): Result<VersionInfo> {
    var lines := Split(Strip(commit), '\n');
    if |lines| < 2 then Err(IndexError)
    else
      var name := match TagSearch(lines[1]) case Some(v) => v case None => lines[0];
      if |lines| < 3 then Err(IndexError)
      else
        match parseDate(lines[2])
        case None => Err(ValueError("Invalid isoformat string"))
        case Some(date) => Ok(VersionInfo(name, date))
  }

  /** A line `git` printed, with its newline. */
  lemma StripTrailingNewline(core: string)
    requires core != [] && !IsSpace(core[0]) && !IsSpace(core[|core| - 1])
    ensures Strip(core + "\n") == core
  {
    var s := core + "\n";
    assert LStrip(s) == s;
    assert s[..|s| - 1] == core;
    assert RStrip(core) == core;
  }

  /** Reading back what `git show --format=%H%n%d%n%cd` prints: the hash, the decoration and
      the date, each on its own line. The name is the first tag of the decoration, else the
      hash; the date is the parsed third line. */
  lemma {:induction false} VersionInfoOfShow(hash: string, refs: string, date: string, parseDate: string -> Option<int>)
    requires hash != [] && !IsSpace(hash[0]) && '\n' !in hash
    requires '\n' !in refs
    requires date != [] && !IsSpace(date[|date| - 1]) && '\n' !in date
    ensures var r := VersionInfoOf(hash + "\n" + refs + "\n" + date + "\n", parseDate);
            && (parseDate(date).None? ==> r.Err? && r.error.ValueError?)
            && (parseDate(date).Some? ==>
                  r == Ok(VersionInfo(if TagSearch(refs).Some? then TagSearch(refs).value else hash,
                                      parseDate(date).value)))
  {
    var core := hash + "\n" + refs + "\n" + date;
    assert core + "\n" == hash + "\n" + refs + "\n" + date + "\n";
    assert core[0] == hash[0] && core[|core| - 1] == date[|date| - 1];
    StripTrailingNewline(core);
    assert core == hash + ['\n'] + (refs + ['\n'] + date);
    SplitAtFirst(hash, refs + ['\n'] + date, '\n');
    SplitAtFirst(refs, date, '\n');
    assert Split(date, '\n') == [date];
  }

  // ---------------------------------------------------------------------------------------
  // The checkout decision: `update_submodule`
  // ---------------------------------------------------------------------------------------

  /** The version `update_submodule` checks out: none without remote information; the tag
      unless the newest commit is more than thirty days newer; whichever one exists. */
  function ChooseVersion(tag: Option<VersionInfo>, commit: Option<VersionInfo>): (r: Option<string>)
    ensures r.None? <==> tag.None? && commit.None?
    ensures r.Some? ==> (tag.Some? && r.value == tag.value.name) || (commit.Some? && r.value == commit.value.name)
  {
    if tag.None? && commit.None? then None
    else if tag.Some? && commit.Some? then
      if tag.value.date + ThirtyDays > commit.value.date then Some(tag.value.name)
      else Some(commit.value.name)
    else if commit.Some? then Some(commit.value.name)
    else Some(tag.value.name)
  }

  /** With both present, the tag is chosen exactly when the commit is less than thirty days
      newer than it; a commit exactly thirty days newer wins. */
  lemma ChooseTagWindow(tag: VersionInfo, commit: VersionInfo)
    requires tag.name != commit.name
    ensures ChooseVersion(Some(tag), Some(commit)) == Some(tag.name) <==> commit.date - tag.date < ThirtyDays
    ensures commit.date == tag.date + ThirtyDays ==> ChooseVersion(Some(tag), Some(commit)) == Some(commit.name)
  {
  }

  /** A tag at least as new as the commit is always chosen, and so is any tag when the commit
      moves back in time. */
  lemma ChooseNewerTag(tag: VersionInfo, commit: VersionInfo, earlier: VersionInfo)
    requires tag.date >= commit.date
    requires earlier.date <= commit.date
    ensures ChooseVersion(Some(tag), Some(commit)) == Some(tag.name)
    ensures ChooseVersion(Some(tag), Some(commit)) == Some(tag.name) ==>
              ChooseVersion(Some(tag), Some(earlier)) == Some(tag.name)
  {
  }

  // ---------------------------------------------------------------------------------------
  // The submodule listing: `get_submodule_info`
  // ---------------------------------------------------------------------------------------

  /** The path of a `git submodule` line: the second space-separated piece of the stripped
      line (`IndexError` when there is none). */
  function SubmodulePath(line: string): (r: Result<string>)
    ensures r.Err? <==> ' ' !in Strip(line)
    ensures r.Err? ==> r.error == IndexError
    ensures r.Ok? ==> ' ' !in r.value
  {
    var pieces := Split(Strip(line), ' ');
    if |pieces| < 2 then
      assert ' ' !in Strip(line) by {
        assert pieces == [pieces[0]];
        assert JoinWith(pieces, " ") == pieces[0];
      }
      Err(IndexError)
    else
      assert ' ' in Strip(line) by {
        assert JoinWith(pieces, " ") == pieces[0] + " " + JoinWith(pieces[1..], " ");
        assert Strip(line)[|pieces[0]|] == ' ';
      }
      Ok(pieces[1])
  }

  /** The paths `read` finds in the non-empty lines, in order; the first line without a path
      decides the error. */
  function SubmodulePaths(lines: seq<string>, read: string -> Result<string>): (r: Result<seq<string>>)
    ensures r.Ok? ==> |r.value| <= |lines|
  {
    if lines == [] then Ok([])
    else if lines[0] == "" then SubmodulePaths(lines[1..], read)
    else
      match read(lines[0])
      case Err(e) => Err(e)
      case Ok(path) =>
        match SubmodulePaths(lines[1..], read)
        case Err(e) => Err(e)
        case Ok(paths) => Ok([path] + paths)
  }

  /** The listing is read without error exactly when every non-empty line has a path, and
      then there is one path per non-empty line. */
  lemma {:induction false} SubmodulePathsAll(lines: seq<string>, read: string -> Result<string>)
    ensures SubmodulePaths(lines, read).Ok? <==>
              forall i :: 0 <= i < |lines| && lines[i] != "" ==> read(lines[i]).Ok?
    ensures SubmodulePaths(lines, read).Ok? ==>
              |SubmodulePaths(lines, read).value| == |lines| - multiset(lines)[""]
  {
    if lines != [] {
      SubmodulePathsAll(lines[1..], read);
      assert lines == [lines[0]] + lines[1..];
      assert multiset(lines) == multiset([lines[0]]) + multiset(lines[1..]);
      if SubmodulePaths(lines, read).Ok? {
        forall i | 0 <= i < |lines| && lines[i] != "" ensures read(lines[i]).Ok? {
          if i > 0 { assert lines[1..][i - 1] == lines[i]; }
        }
      }
    }
  }

  /** Paths found before the rest of the listing was read. */
  function Prepend(paths: seq<string>, rest: Result<seq<string>>): Result<seq<string>> {
    match rest
    case Err(e) => Err(e)
    case Ok(more) => Ok(paths + more)
  }

  lemma PrependTwice(a: seq<string>, b: seq<string>, rest: Result<seq<string>>)
    ensures Prepend(a, Prepend(b, rest)) == Prepend(a + b, rest)
  {
    if rest.Ok? {
      assert a + (b + rest.value) == a + b + rest.value;
    }
  }

  /** One line of the listing. */
  lemma PathsStep(lines: seq<string>, read: string -> Result<string>, i: nat)
    requires i < |lines|
    ensures SubmodulePaths(lines[i..], read) ==
              if lines[i] == "" then SubmodulePaths(lines[i + 1..], read)
              else match read(lines[i])
                   case Err(e) => Err(e)
                   case Ok(p) => Prepend([p], SubmodulePaths(lines[i + 1..], read))
  {
    assert lines[i..][1..] == lines[i + 1..];
  }

  /** The listing read up to line `i`, one line further. */
  lemma PathsAdvance(lines: seq<string>, read: string -> Result<string>, i: nat, paths: seq<string>)
    requires i < |lines|
    requires SubmodulePaths(lines, read) == Prepend(paths, SubmodulePaths(lines[i..], read))
    ensures lines[i] == "" ==> SubmodulePaths(lines, read) == Prepend(paths, SubmodulePaths(lines[i + 1..], read))
    ensures lines[i] != "" && read(lines[i]).Err? ==>
              SubmodulePaths(lines, read) == Err(read(lines[i]).error)
    ensures lines[i] != "" && read(lines[i]).Ok? ==>
              SubmodulePaths(lines, read) == Prepend(paths + [read(lines[i]).value], SubmodulePaths(lines[i + 1..], read))
  {
    PathsStep(lines, read, i);
    if lines[i] != "" && read(lines[i]).Ok? {
      PrependTwice(paths, [read(lines[i]).value], SubmodulePaths(lines[i + 1..], read));
    }
  }

  /** What `git submodule` prints for one submodule: a status character (a space when the
      checkout matches), the commit, the path and the description in parentheses. The path is
      read back exactly. */
  lemma {:induction false} SubmodulePathOfStatus(status: char, hash: string, path: string, describe: string)
    requires status == ' ' || !IsSpace(status)
    requires hash != [] && forall i :: 0 <= i < |hash| ==> !IsSpace(hash[i])
    requires ' ' !in path
    ensures SubmodulePath([status] + hash + " " + path + " (" + describe + ")") == Ok(path)
  {
    var rest := "(" + describe + ")";
    var tail := path + [' '] + rest;
    var head := if status == ' ' then hash else [status] + hash;
    var body := head + [' '] + tail;
    var line := [status] + hash + " " + path + " (" + describe + ")";
    assert line == if status == ' ' then [' '] + body else body;
    assert body[0] == head[0] && body[|body| - 1] == ')';
    StripStatus(status, body);
    assert ' ' !in head;
    SplitAtFirst(head, tail, ' ');
    SplitAtFirst(path, rest, ' ');
  }

  /** The leading space of an up-to-date submodule's line is stripped away. */
  lemma StripStatus(status: char, body: string)
    requires body != [] && !IsSpace(body[0]) && !IsSpace(body[|body| - 1])
    ensures Strip(if status == ' ' then [' '] + body else body) == body
  {
    StripUnchanged(body);
    if status == ' ' {
      assert ([' '] + body)[1..] == body;
    }
  }

  // ---------------------------------------------------------------------------------------
  // Commands
  // ---------------------------------------------------------------------------------------

  function SubmoduleCommand(): Invocation { Invocation(["git", "submodule"], None) }
  function FetchCommand(path: string): Invocation { Invocation(["git", "fetch"], Some(path)) }
  function TagListCommand(path: string): Invocation { Invocation(["git", "tag"], Some(path)) }
  function ShowCommand(revision: string, path: string): Invocation {
    Invocation(["git", "show", revision, "--date=iso-strict", "--quiet", "--format=%H%n%d%n%cd"], Some(path))
  }
  function CheckoutVersionCommand(version: string, path: string): Invocation {
    Invocation(["git", "checkout", version], Some(path))
  }

  /** The tag `get_remote_tag` shows: the last line of the stripped `git tag` output, unsorted;
      none when the output is blank. */
  function LastTag(out: string): (r: Option<string>)
    ensures r.None? <==> Strip(out) == ""
    ensures r.Some? ==> '\n' !in r.value && (Strip(out) == r.value || EndsWith(Strip(out), "\n" + r.value))
  {
    if Strip(out) == "" then None
    else
      var pieces := Split(Strip(out), '\n');
      LastPiece(pieces, "\n");
      Some(pieces[|pieces| - 1])
  }

  /** A join is its only piece, or ends with the separator and its last piece. */
  lemma {:induction false} LastPiece(pieces: seq<string>, sep: string)
    requires pieces != []
    ensures |pieces| == 1 ==> JoinWith(pieces, sep) == pieces[0]
    ensures |pieces| > 1 ==> EndsWith(JoinWith(pieces, sep), sep + pieces[|pieces| - 1])
  {
    if |pieces| > 1 {
      var last := sep + pieces[|pieces| - 1];
      var rest := JoinWith(pieces[1..], sep);
      var whole := pieces[0] + sep + rest;
      if |pieces| == 2 {
        assert rest == pieces[1];
        assert whole[|whole| - |last|..] == last;
      } else {
        LastPiece(pieces[1..], sep);
        assert whole[|whole| - |last|..] == rest[|rest| - |last|..];
      }
    }
  }

  /** No command issued from position `n` of the log on is a commit. */
  predicate NoCommitSince(log: seq<Invocation>, n: nat) {
    forall k :: n <= k < |log| ==> !IsCommit(log[k])
  }

  /** A log that grew without commits from a log without commits since `n`. */
  lemma NoCommitGrew(log: seq<Invocation>, before: seq<Invocation>, n: nat)
    requires |before| <= |log| && log[..|before|] == before
    requires NoCommitSince(before, n) && NoCommitSince(log, |before|)
    ensures NoCommitSince(log, n)
  {
    forall k | n <= k < |before| ensures !IsCommit(log[k]) {
      assert log[k] == log[..|before|][k];
    }
  }

  /** Appending a command that is not a commit. */
  lemma NoCommitStep(log: seq<Invocation>, inv: Invocation)
    requires !IsCommit(inv)
    ensures NoCommitSince(log + [inv], |log|)
    ensures (log + [inv])[..|log|] == log && (log + [inv])[|log|] == inv
  {
  }

  /** A log that grew from `before` keeps what `before` held. */
  lemma PrefixGrew(log: seq<Invocation>, before: seq<Invocation>, n: nat)
    requires n <= |before| <= |log| && log[..|before|] == before
    ensures log[..n] == before[..n]
    ensures forall k :: 0 <= k < |before| ==> log[k] == before[k]
  {
    assert forall k :: 0 <= k < |before| ==> log[..|before|][k] == log[k];
  }

  /** Without commits, the log counts none. */
  lemma NoCommitCount(log: seq<Invocation>, n: nat)
    requires n <= |log| && NoCommitSince(log, n)
    ensures CommitCount(log[n..]) == 0 && !HasCommit(log[n..])
  {
    forall k | 0 <= k < |log[n..]| ensures !IsCommit(log[n..][k]) {
      assert log[n..][k] == log[n + k];
    }
    CommitCountHasCommit(log[n..]);
  }

  /** The tag found, or the error reading it. */
  function Tagged(info: Result<VersionInfo>): (r: Result<Option<VersionInfo>>)
    ensures r.Ok? <==> info.Ok?
    ensures r.Ok? ==> r.value == Some(info.value)
  {
    match info
    case Err(e) => Err(e)
    case Ok(v) => Ok(Some(v))
  }

  /** `Submodule`: a path, and the remote information `annotate_submodule` fills in. */
  class Submodule {
    const path: string
    var remoteTag: Option<VersionInfo>
    var remoteCommit: Option<VersionInfo>

    constructor(path: string)
      ensures this.path == path && remoteTag == None && remoteCommit == None
    {
      this.path := path;
      remoteTag := None;
      remoteCommit := None;
    }
  }

  class GitSubmoduleUpdater {
    const util: Util
    /** `datetime.fromisoformat`, to seconds: `None` for `ValueError`. */
    const parseDate: string -> Option<int>
    /** The reader of `git show` output, `VersionInfoOf`. */
    const readVersion: (string, string -> Option<int>) -> Result<VersionInfo>

    /** The reader of one `git submodule` line, `SubmodulePath`. */
    const readPath: string -> Result<string>
    /** The reader of `git tag` output, `LastTag`. */
    const readTag: string -> Option<string>

    constructor(util: Util, parseDate: string -> Option<int>)
      ensures this.util == util && this.parseDate == parseDate
      ensures readVersion == VersionInfoOf && readPath == SubmodulePath && readTag == LastTag
    {
      readTag := LastTag;
      readVersion := VersionInfoOf;
      readPath := SubmodulePath;
      this.util := util;
      this.parseDate := parseDate;
    }

    /** `check_applicable`: `git submodule` succeeds and prints something. */
    method CheckApplicable() returns (r: Result<bool>)
      modifies util`issued
      ensures util.issued == old(util.issued) + [SubmoduleCommand()]
      ensures var o := util.Run(|old(util.issued)|, SubmoduleCommand(), true, false);
              && (o.Ok? ==> r == Ok(|o.value.stdout| > 0))
              && (o.Err? && o.error.CommandFailed? ==> r == Ok(false))
              && (o.Err? && !o.error.CommandFailed? ==> r == Err(o.error))
    {
      var o := util.Execute(SubmoduleCommand(), true);
      if o.Err? {
        if o.error.CommandFailed? {
          return Ok(false);
        }
        return Err(o.error);
      }
      r := Ok(|o.value.stdout| > 0);
    }

    /** `get_submodule_info`: one new submodule per non-empty line of `git submodule`, with the
        line's path and no remote information yet. */
    method GetSubmoduleInfo() returns (r: Result<seq<Submodule>>)
      modifies util`issued
      ensures util.issued == old(util.issued) + [SubmoduleCommand()]
      ensures var o := util.Run(|old(util.issued)|, SubmoduleCommand(), true, false);
              && (o.Err? ==> r == Err(o.error))
              && (o.Ok? ==>
                    var paths := SubmodulePaths(Split(o.value.stdout, '\n'), readPath);
                    && (paths.Err? ==> r == Err(paths.error))
                    && (paths.Ok? ==>
                          && r.Ok? && |r.value| == |paths.value|
                          && forall i :: 0 <= i < |r.value| ==>
                               && fresh(r.value[i]) && r.value[i].path == paths.value[i]
                               && r.value[i].remoteTag.None? && r.value[i].remoteCommit.None?))
    {
      var o := util.Execute(SubmoduleCommand(), true);
      if o.Err? {
        return Err(o.error);
      }
      r := NewSubmodules(Split(o.value.stdout, '\n'));
    }

    /** The loop of `get_submodule_info`: one new submodule per non-empty line. */
    method NewSubmodules(lines: seq<string>) returns (r: Result<seq<Submodule>>)
      ensures var paths := SubmodulePaths(lines, readPath);
              && (paths.Err? ==> r == Err(paths.error))
              && (paths.Ok? ==>
                    && r.Ok? && |r.value| == |paths.value|
                    && forall i :: 0 <= i < |r.value| ==>
                         && fresh(r.value[i]) && r.value[i].path == paths.value[i]
                         && r.value[i].remoteTag.None? && r.value[i].remoteCommit.None?)
    {
      var submodules: seq<Submodule> := [];
      ghost var paths: seq<string> := [];
      var i := 0;
      assert lines[i..] == lines;
      assert SubmodulePaths(lines, readPath).Ok? ==> [] + SubmodulePaths(lines, readPath).value == SubmodulePaths(lines, readPath).value;
      while i < |lines|
        invariant 0 <= i <= |lines|
        invariant SubmodulePaths(lines, readPath) == Prepend(paths, SubmodulePaths(lines[i..], readPath))
        invariant |submodules| == |paths|
        invariant forall j :: 0 <= j < |submodules| ==>
                    && fresh(submodules[j]) && submodules[j].path == paths[j]
                    && submodules[j].remoteTag.None? && submodules[j].remoteCommit.None?
      {
        PathsAdvance(lines, readPath, i, paths);
        if lines[i] == "" {
          i := i + 1;
          continue;
        }
        var path := readPath(lines[i]);
        if path.Err? {
          return Err(path.error);
        }
        var submodule := new Submodule(path.value);
        submodules := submodules + [submodule];
        paths := paths + [path.value];
        i := i + 1;
      }
      assert lines[i..] == [];
      r := Ok(submodules);
    }

    /** The version information of a revision of the submodule at `path`. */
    method ShowVersion(revision: string, path: string) returns (r: Result<VersionInfo>)
      modifies util`issued
      ensures util.issued == old(util.issued) + [ShowCommand(revision, path)]
      ensures var o := util.Run(|old(util.issued)|, ShowCommand(revision, path), true, false);
              && (o.Err? ==> r == Err(o.error))
              && (o.Ok? ==> r == readVersion(o.value.stdout, parseDate))
    {
      var o := util.Execute(ShowCommand(revision, path), true);
      if o.Err? {
        return Err(o.error);
      }
      r := readVersion(o.value.stdout, parseDate);
    }

    /** `get_remote_commit`: the version information of `origin`. */
    method GetRemoteCommit(submodule: Submodule) returns (r: Result<VersionInfo>)
      modifies util`issued
      ensures util.issued == old(util.issued) + [ShowCommand("origin", submodule.path)]
      ensures var o := util.Run(|old(util.issued)|, ShowCommand("origin", submodule.path), true, false);
              && (o.Err? ==> r == Err(o.error))
              && (o.Ok? ==> r == readVersion(o.value.stdout, parseDate))
    {
      r := ShowVersion("origin", submodule.path);
    }

    /** `get_remote_tag`: none when `git tag` prints nothing; otherwise the version information
        of the last tag listed. */
    method GetRemoteTag(submodule: Submodule) returns (r: Result<Option<VersionInfo>>)
      modifies util`issued
      ensures |util.issued| > |old(util.issued)| && util.issued[..|old(util.issued)|] == old(util.issued)
      ensures util.issued[|old(util.issued)|] == TagListCommand(submodule.path)
      ensures NoCommitSince(util.issued, |old(util.issued)|)
      ensures var listed := util.Run(|old(util.issued)|, TagListCommand(submodule.path), true, false);
              listed.Err? ==> r == Err(listed.error) && |util.issued| == |old(util.issued)| + 1
      ensures var listed := util.Run(|old(util.issued)|, TagListCommand(submodule.path), true, false);
              listed.Ok? && readTag(listed.value.stdout).None? ==>
                r == Ok(None) && |util.issued| == |old(util.issued)| + 1
      ensures var listed := util.Run(|old(util.issued)|, TagListCommand(submodule.path), true, false);
              listed.Ok? && readTag(listed.value.stdout).Some? ==>
                var show := ShowCommand(readTag(listed.value.stdout).value, submodule.path);
                var o := util.Run(|old(util.issued)| + 1, show, true, false);
                && util.issued == old(util.issued) + [TagListCommand(submodule.path), show]
                && (o.Err? ==> r == Err(o.error))
                && (o.Ok? ==> r == Tagged(readVersion(o.value.stdout, parseDate)))
    {
      var listed := util.Execute(TagListCommand(submodule.path), true);
      if listed.Err? {
        return Err(listed.error);
      }
      var tag := readTag(listed.value.stdout);
      if tag.None? {
        return Ok(None);
      }
      var info := ShowVersion(tag.value, submodule.path);
      r := Tagged(info);
    }

    /** What `get_remote_tag` recorded, with `git tag` issued at position `k` of `log`: none
        when the listing is blank, and otherwise the version information `git show` gives for
        the last tag listed, shown by the next command of the log. */
    predicate RemoteTagRead(path: string, k: nat, log: seq<Invocation>, tag: Option<VersionInfo>) {
      var listed := util.Run(k, TagListCommand(path), true, false);
      && listed.Ok?
      && (readTag(listed.value.stdout).None? ==> tag.None? && |log| == k + 1)
      && (readTag(listed.value.stdout).Some? ==>
            var show := ShowCommand(readTag(listed.value.stdout).value, path);
            var o := util.Run(k + 1, show, true, false);
            && |log| == k + 2 && log[k + 1] == show
            && o.Ok? && tag.Some? && readVersion(o.value.stdout, parseDate) == Ok(tag.value))
    }

    /** `annotate_submodule`: fetch, then record the remote commit (read from `origin`) and
        the remote tag; the first failing command's error propagates. */
    method AnnotateSubmodule(submodule: Submodule) returns (r: Result<()>)
      modifies util`issued, submodule`remoteTag, submodule`remoteCommit
      ensures |util.issued| > |old(util.issued)| && util.issued[..|old(util.issued)|] == old(util.issued)
      ensures util.issued[|old(util.issued)|] == FetchCommand(submodule.path)
      ensures NoCommitSince(util.issued, |old(util.issued)|)
      ensures var fetched := util.Run(|old(util.issued)|, FetchCommand(submodule.path), true, false);
              fetched.Err? ==> r == Err(fetched.error) && |util.issued| == |old(util.issued)| + 1
      ensures r.Ok? ==>
                && |util.issued| > |old(util.issued)| + 2
                && util.issued[|old(util.issued)| + 1] == ShowCommand("origin", submodule.path)
                && util.issued[|old(util.issued)| + 2] == TagListCommand(submodule.path)
      ensures r.Ok? ==> (submodule.remoteTag.None? <==> |util.issued| == |old(util.issued)| + 3)
      ensures r.Ok? ==>
                var o := util.Run(|old(util.issued)| + 1, ShowCommand("origin", submodule.path), true, false);
                o.Ok? && submodule.remoteCommit.Some? &&
                readVersion(o.value.stdout, parseDate) == Ok(submodule.remoteCommit.value)
      ensures r.Ok? ==> RemoteTagRead(submodule.path, |old(util.issued)| + 2, util.issued, submodule.remoteTag)
    {
      ghost var n := |util.issued|;
      var fetched := util.Execute(FetchCommand(submodule.path), true);
      NoCommitStep(old(util.issued), FetchCommand(submodule.path));
      if fetched.Err? {
        return Err(fetched.error);
      }
      ghost var before := util.issued;
      var commit := GetRemoteCommit(submodule);
      NoCommitStep(before, ShowCommand("origin", submodule.path));
      PrefixGrew(util.issued, before, n);
      if commit.Err? {
        return Err(commit.error);
      }
      submodule.remoteCommit := Some(commit.value);
      before := util.issued;
      var tag := GetRemoteTag(submodule);
      NoCommitGrew(util.issued, before, n);
      PrefixGrew(util.issued, before, n);
      if tag.Err? {
        return Err(tag.error);
      }
      submodule.remoteTag := tag.value;
      r := Ok(());
    }

    /** `update_submodule`: check out the chosen version in the submodule, once; nothing when
        there is no remote information. */
    method UpdateSubmodule(submodule: Submodule) returns (r: Result<Option<string>>)
      modifies util`issued
      ensures var v := ChooseVersion(submodule.remoteTag, submodule.remoteCommit);
              && (v.None? ==> r == Ok(None) && util.issued == old(util.issued))
              && (v.Some? ==>
                    var checkout := CheckoutVersionCommand(v.value, submodule.path);
                    var o := util.Run(|old(util.issued)|, checkout, false, false);
                    && util.issued == old(util.issued) + [checkout]
                    && (o.Err? ==> r == Err(o.error))
                    && (o.Ok? ==> r == Ok(v)))
      ensures NoCommitSince(util.issued, |old(util.issued)|)
    {
      var version := ChooseVersion(submodule.remoteTag, submodule.remoteCommit);
      if version.None? {
        return Ok(None);
      }
      var o := util.Execute(CheckoutVersionCommand(version.value, submodule.path), false);
      if o.Err? {
        return Err(o.error);
      }
      r := Ok(version);
    }

    /** One visit of `update_dependencies` to the submodule at `path`, taking the log from
        `before` to `after`: `git fetch`, the remote commit read from `git show origin`, the
        remote tag read from `git tag` (and its `git show`), then one checkout of the version
        `ChooseVersion` picks from the two. */
    predicate Visited(path: string, before: seq<Invocation>, after: seq<Invocation>,
                      tag: Option<VersionInfo>, commit: Option<VersionInfo>) {
      var n := |before|;
      var m := if tag.None? then n + 3 else n + 4;
      var v := ChooseVersion(tag, commit);
      && n + 3 <= m <= |after| && after[..n] == before
      && after[n] == FetchCommand(path) && after[n + 1] == ShowCommand("origin", path)
      && after[n + 2] == TagListCommand(path)
      && (var o := util.Run(n + 1, ShowCommand("origin", path), true, false);
          o.Ok? && commit.Some? && readVersion(o.value.stdout, parseDate) == Ok(commit.value))
      && RemoteTagRead(path, n + 2, after[..m], tag)
      && (v.None? ==> |after| == m)
      && (v.Some? ==> |after| == m + 1 && after[m] == CheckoutVersionCommand(v.value, path))
    }

    /** The visits to the submodules at `paths`, in order: visit `i` takes `logs[i]` to
        `logs[i + 1]` and records `tags[i]` and `commits[i]`. */
    predicate VisitedAll(paths: seq<string>, logs: seq<seq<Invocation>>,
                         tags: seq<Option<VersionInfo>>, commits: seq<Option<VersionInfo>>) {
      && |logs| == |paths| + 1 && |tags| == |paths| && |commits| == |paths|
      && forall i :: 0 <= i < |paths| ==> Visited(paths[i], logs[i], logs[i + 1], tags[i], commits[i])
    }

    lemma VisitedAllSnoc(paths: seq<string>, i: nat, logs: seq<seq<Invocation>>,
                         tags: seq<Option<VersionInfo>>, commits: seq<Option<VersionInfo>>,
                         next: seq<Invocation>, tag: Option<VersionInfo>, commit: Option<VersionInfo>)
      requires i < |paths| && VisitedAll(paths[..i], logs, tags, commits)
      requires Visited(paths[i], logs[i], next, tag, commit)
      ensures VisitedAll(paths[..i + 1], logs + [next], tags + [tag], commits + [commit])
    {
      var ps, ls, ts, cs := paths[..i + 1], logs + [next], tags + [tag], commits + [commit];
      forall j | 0 <= j < |ps| ensures Visited(ps[j], ls[j], ls[j + 1], ts[j], cs[j]) {
        if j < i {
          assert ps[j] == paths[..i][j] && ls[j] == logs[j] && ls[j + 1] == logs[j + 1];
          assert ts[j] == tags[j] && cs[j] == commits[j];
        }
      }
    }

    /** The body of the loop of `update_dependencies`: annotate the submodule, then check out
        the version chosen from what was recorded. */
    method VisitSubmodule(submodule: Submodule) returns (r: Result<()>)
      modifies util`issued, submodule`remoteTag, submodule`remoteCommit
      ensures |old(util.issued)| <= |util.issued| && util.issued[..|old(util.issued)|] == old(util.issued)
      ensures NoCommitSince(util.issued, |old(util.issued)|)
      ensures r.Ok? ==> Visited(submodule.path, old(util.issued), util.issued, submodule.remoteTag, submodule.remoteCommit)
    {
      ghost var n := |util.issued|;
      var annotated := AnnotateSubmodule(submodule);
      if annotated.Err? {
        return Err(annotated.error);
      }
      ghost var mid := util.issued;
      var checkedOut := UpdateSubmodule(submodule);
      NoCommitGrew(util.issued, mid, n);
      PrefixGrew(util.issued, mid, n);
      if checkedOut.Err? {
        return Err(checkedOut.error);
      }
      assert util.issued[..|mid|] == mid;
      r := Ok(());
    }

    /** `update_dependencies`: annotate and check out every submodule; nothing is committed and
        the answer is always "no updates". On success, `paths` are the submodules `git submodule`
        listed, and visit `i` to `paths[i]` takes `logs[i]` to `logs[i + 1]`. */
    method UpdateDependencies()
      returns (r: Result<bool>, ghost paths: seq<string>, ghost logs: seq<seq<Invocation>>,
               ghost tags: seq<Option<VersionInfo>>, ghost commits: seq<Option<VersionInfo>>)
      modifies util`issued
      ensures r.Ok? ==> r.value == false
      ensures |old(util.issued)| < |util.issued| && util.issued[..|old(util.issued)|] == old(util.issued)
      ensures util.issued[|old(util.issued)|] == SubmoduleCommand()
      ensures CommitCount(util.issued[|old(util.issued)|..]) == 0
      ensures r.Ok? ==>
                var o := util.Run(|old(util.issued)|, SubmoduleCommand(), true, false);
                && o.Ok? && SubmodulePaths(Split(o.value.stdout, '\n'), readPath) == Ok(paths)
                && VisitedAll(paths, logs, tags, commits)
                && logs[0] == old(util.issued) + [SubmoduleCommand()] && logs[|paths|] == util.issued
    {
      ghost var n := |util.issued|;
      var submodules := GetSubmoduleInfo();
      logs, tags, commits := [util.issued], [], [];
      if submodules.Err? {
        NoCommitCount(util.issued, n);
        return Err(submodules.error), [], logs, tags, commits;
      }
      ghost var o := util.Run(n, SubmoduleCommand(), true, false);
      paths := SubmodulePaths(Split(o.value.stdout, '\n'), readPath).value;
      var i := 0;
      while i < |submodules.value|
        invariant 0 <= i <= |submodules.value| == |paths|
        invariant forall j :: 0 <= j < |paths| ==> submodules.value[j].path == paths[j]
        invariant n < |util.issued| && util.issued[..n] == old(util.issued) && util.issued[n] == SubmoduleCommand()
        invariant NoCommitSince(util.issued, n)
        invariant VisitedAll(paths[..i], logs, tags, commits)
        invariant logs[0] == old(util.issued) + [SubmoduleCommand()] && logs[i] == util.issued
      {
        var submodule := submodules.value[i];
        ghost var before := util.issued;
        var visited := VisitSubmodule(submodule);
        NoCommitGrew(util.issued, before, n);
        PrefixGrew(util.issued, before, n);
        if visited.Err? {
          NoCommitCount(util.issued, n);
          return Err(visited.error), paths, logs, tags, commits;
        }
        VisitedAllSnoc(paths, i, logs, tags, commits, util.issued, submodule.remoteTag, submodule.remoteCommit);
        logs, tags, commits := logs + [util.issued], tags + [submodule.remoteTag], commits + [submodule.remoteCommit];
        i := i + 1;
      }
      NoCommitCount(util.issued, n);
      assert paths[..i] == paths;
      r := Ok(false);
    }
  }

}
