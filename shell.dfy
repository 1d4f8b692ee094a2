/** The shared services of req_update/util.py: the `Util` object every updater holds. Shell
    commands, the network and `json.loads` are oracles fixed when the object is made; what the
    object records is every command handed to `execute_shell` (in order), every URL fetched,
    the branch flag, the request cache, and the working tree's files. */
module Shell {
  import opened Wrappers
  import opened Text
  import opened JsonValue

  const BranchName: string := "dep-update"

  /** `COMMIT_MESSAGE.format(language=..., package=..., version=...)`. */
  function CommitMessage(language: string, package: string, version: string): string {
    "Update " + language + " " + package + " package to " + version
  }

  /** A commit message names the language and the package first and the version last. */
  lemma CommitMessageShape(language: string, package: string, version: string)
    ensures StartsWith(CommitMessage(language, package, version), "Update " + language + " " + package)
    ensures EndsWith(CommitMessage(language, package, version), " package to " + version)
    ensures |CommitMessage(language, package, version)| == |language| + |package| + |version| + 20
  {
    var m := CommitMessage(language, package, version);
    var front := "Update " + language + " " + package;
    var back := " package to " + version;
    assert m == front + back;
    assert m[..|front|] == front;
    assert m[|m| - |back|..] == back;
  }

  /** One call of `execute_shell`: the argument list and the working directory. */
  datatype Invocation = Invocation(command: seq<string>, cwd: Option<string>)

  /** What the operating system does with a command: it exits with a code and output, or the
      program does not exist (`FileNotFoundError`). */
  datatype Outcome = Exited(returncode: int, stdout: string, stderr: string) | NotFound

  /** A `CompletedProcess`, or the `CalledProcessError` returned under `ignore_exit_code`. */
  datatype ShellOutput = ShellOutput(returncode: int, stdout: string, stderr: string)

  /** An HTTP response as `urlopen` returns it. */
  datatype Response = Response(status: int, body: string)

  type Headers = seq<(string, string)>

  function Program(command: seq<string>): string {
    if command == [] then "" else command[0]
  }

  /** How `subprocess.run(..., check=True)` and the `except` in `execute_shell` turn an outcome
      into a value or an exception. */
  function Reply(o: Outcome, ignoreExitCode: bool, program: string): (r: Result<ShellOutput>)
    ensures o.NotFound? ==> r == Err(FileNotFound(program))
    ensures o.Exited? && o.returncode == 0 ==> r == Ok(ShellOutput(0, o.stdout, o.stderr))
    ensures o.Exited? && o.returncode != 0 ==>
              r == if ignoreExitCode then Ok(ShellOutput(o.returncode, o.stdout, o.stderr))
                   else Err(CommandFailed(o.stdout, o.stderr, o.returncode))
  {
    match o
    case NotFound => Err(FileNotFound(program))
    case Exited(code, out, err) =>
      if code == 0 || ignoreExitCode then Ok(ShellOutput(code, out, err))
      else Err(CommandFailed(out, err, code))
  }

  /** `line[:2]`. */
  function Take2(line: string): string {
    if |line| <= 2 then line else line[..2]
  }

  /** A `git status --porcelain` line that counts against cleanliness: non-empty and not an
      untracked (`??`) entry. */
  predicate Dirty(line: string) {
    line != "" && Take2(line) != "??"
  }

  /** `[line for line in lines if line and line[:2] != '??']`. */
  function DirtyLines(lines: seq<string>): (r: seq<string>)
    ensures forall x :: x in r ==> x in lines && Dirty(x)
    ensures forall x :: x in lines && Dirty(x) ==> x in r
  {
    if lines == [] then []
    else
      var rest := DirtyLines(lines[1..]);
      assert forall x :: x in lines ==> x == lines[0] || x in lines[1..];
      if Dirty(lines[0]) then [lines[0]] + rest else rest
  }

  /** The answer of `check_repository_cleanliness` once `git status --porcelain` has run. */
  function Cleanliness(o: Outcome): Result<bool> {
    match o
    case NotFound => Err(FileNotFound("git"))
    case Exited(code, out, _) =>
      if code != 0 then Err(RuntimeError("Must run within a git repository"))
      else Ok(DirtyLines(Split(out, '\n')) == [])
  }

  /** The repository is clean exactly when every status line is empty or untracked. */
  lemma CleanlinessIff(out: string)
    ensures Cleanliness(Exited(0, out, "")).Ok?
    ensures Cleanliness(Exited(0, out, "")).value <==>
            forall line :: line in Split(out, '\n') ==> line == "" || StartsWith(line, "??")
  {
    var lines := Split(out, '\n');
    forall line | line in lines ensures Dirty(line) <==> !(line == "" || StartsWith(line, "??")) {
      if |line| >= 2 { assert Take2(line) == line[..2]; }
    }
    if DirtyLines(lines) != [] {
      assert DirtyLines(lines)[0] in DirtyLines(lines);
    }
  }

  /** `int(status / 100) == 2`: the division is true division, truncated toward zero by `int`. */
  predicate Is2xx(status: int) {
    (if status >= 0 then status / 100 else -((-status) / 100)) == 2
  }

  lemma Is2xxRange(status: int)
    ensures Is2xx(status) <==> 200 <= status < 300
  {
  }

  function LsFilesCommand(): Invocation { Invocation(["git", "ls-files"], None) }
  function StatusCommand(): Invocation { Invocation(["git", "status", "--porcelain"], None) }
  function CommitCommand(message: string): Invocation { Invocation(["git", "commit", "-am", message], None) }
  function PushCommand(): Invocation { Invocation(["git", "push", "-u", "origin"], None) }
  /** A `git commit -am` command. */
  predicate IsCommit(inv: Invocation) {
    |inv.command| == 4 && inv.command[0] == "git" && inv.command[1] == "commit" && inv.command[2] == "-am"
  }

  /** Whether a stretch of the command log holds a commit. */
  predicate HasCommit(log: seq<Invocation>) {
    exists k :: 0 <= k < |log| && IsCommit(log[k])
  }

  /** A stretch of the log holds a commit when either of its two parts does. */
  lemma HasCommitSplit(log: seq<Invocation>, a: nat, b: nat)
    requires a <= b <= |log|
    ensures HasCommit(log[a..]) <==> HasCommit(log[a..b]) || HasCommit(log[b..])
  {
    if HasCommit(log[a..]) {
      var k :| 0 <= k < |log[a..]| && IsCommit(log[a..][k]);
      if a + k < b {
        assert log[a..b][k] == log[a + k];
      } else {
        assert log[b..][a + k - b] == log[a + k];
      }
    }
    if HasCommit(log[a..b]) {
      var k :| 0 <= k < |log[a..b]| && IsCommit(log[a..b][k]);
      assert log[a..][k] == log[a + k];
    }
    if HasCommit(log[b..]) {
      var k :| 0 <= k < |log[b..]| && IsCommit(log[b..][k]);
      assert log[a..][b - a + k] == log[b + k];
    }
  }

  /** The number of `git commit -am` commands in a stretch of the command log. */
  function CommitCount(log: seq<Invocation>): nat {
    if log == [] then 0
    else CommitCount(log[..|log| - 1]) + (if IsCommit(log[|log| - 1]) then 1 else 0)
  }

  lemma {:induction false} CommitCountAppend(a: seq<Invocation>, b: seq<Invocation>)
    ensures CommitCount(a + b) == CommitCount(a) + CommitCount(b)
    decreases |b|
  {
    if b != [] {
      assert (a + b)[..|a + b| - 1] == a + b[..|b| - 1];
      CommitCountAppend(a, b[..|b| - 1]);
    } else {
      assert a + b == a;
    }
  }

  /** A stretch of the log holds a commit exactly when it counts at least one. */
  lemma {:induction false} CommitCountHasCommit(log: seq<Invocation>)
    ensures CommitCount(log) > 0 <==> HasCommit(log)
  {
    if log != [] {
      var front := log[..|log| - 1];
      CommitCountHasCommit(front);
      if HasCommit(front) {
        var k :| 0 <= k < |front| && IsCommit(front[k]);
        assert log[k] == front[k];
      }
      if HasCommit(log) && !IsCommit(log[|log| - 1]) {
        var k :| 0 <= k < |log| && IsCommit(log[k]);
        assert front[k] == log[k];
      }
    }
  }

  /** A log that grew from `before`, itself grown from a log of length `n`: the part after
      `n` is the earlier part after `n` followed by what was just added. */
  lemma LogGrew(log: seq<Invocation>, before: seq<Invocation>, n: nat)
    requires n <= |before| <= |log| && log[..|before|] == before
    ensures log[n..] == before[n..] + log[|before|..]
    ensures log[..n] == before[..n]
  {
    assert log == before + log[|before|..];
  }

  function ListBranchCommand(): Invocation { Invocation(["git", "branch", "--list", BranchName], None) }
  function CheckoutCommand(): Invocation { Invocation(["git", "checkout", BranchName], None) }
  function CheckoutNewCommand(): Invocation { Invocation(["git", "checkout", "-b", BranchName], None) }
  function CheckoutPreviousCommand(): Invocation { Invocation(["git", "checkout", "-"], None) }
  function DeleteBranchCommand(): Invocation { Invocation(["git", "branch", "-d", BranchName], None) }
  function ResetCommand(): Invocation { Invocation(["git", "checkout", "."], None) }

  /** Discard the output of a shell result. */
  /** The checkout `create_branch` issues: of the existing branch when `git branch --list`
      printed something, else of a new branch. */
  function BranchCheckout(listing: string): (r: Invocation)
    ensures r == CheckoutCommand() <==> Strip(listing) != ""
    ensures r == CheckoutNewCommand() <==> Strip(listing) == ""
  {
    if Strip(listing) != "" then CheckoutCommand() else CheckoutNewCommand()
  }

  /** Two commands issued one after the other extend the log by both. */
  lemma IssuedTwo(log: seq<Invocation>, a: Invocation, b: Invocation)
    ensures log + [a] + [b] == log + [a, b]
  {
  }

  function Done(r: Result<ShellOutput>): Result<()> {
    if r.Ok? then Ok(()) else Err(r.error)
  }

  /** What `cached_request` answers for `url`, given the cache, the network and `json.loads`:
      the cached value, or the fetched reply when its status is 2xx and it decodes. */
  function CacheAnswer(network: (string, Headers) -> Response, decode: string -> Option<Json>,
                       cache: map<string, Json>, url: string, headers: Headers): Result<Json>
  {
    if url in cache then Ok(cache[url])
    else
      var response := network(url, headers);
      if !Is2xx(response.status) then Err(HttpError(response.status))
      else if decode(response.body).None? then Err(DecodeError)
      else Ok(decode(response.body).value)
  }

  /** The cache after that request: a decoded reply is stored under the URL alone. */
  function CacheAfter(network: (string, Headers) -> Response, decode: string -> Option<Json>,
                      cache: map<string, Json>, url: string, headers: Headers): (r: map<string, Json>)
    ensures url in cache ==> r == cache
    ensures r.Keys == cache.Keys + (if CacheAnswer(network, decode, cache, url, headers).Ok? then {url} else {})
    ensures url in r ==> Ok(r[url]) == CacheAnswer(network, decode, cache, url, headers)
    ensures forall u :: u in cache ==> u in r && r[u] == cache[u]
  {
    var a := CacheAnswer(network, decode, cache, url, headers);
    if url !in cache && a.Ok? then cache[url := a.value] else cache
  }

  class Util {
    const push: bool
    const ignoreCleanliness: bool
    const dryRun: bool
    /** The reply of the system to the `n`-th command issued. */
    const shell: (nat, Invocation) -> Outcome
    const network: (string, Headers) -> Response
    /** `json.loads`: `None` stands for `JSONDecodeError`. */
    const decode: string -> Option<Json>
    /** `json.dumps(value, indent=2)`. */
    const encode: Json -> string

    var branchExists: bool
    var requestCache: map<string, Json>
    /** Every command handed to `execute_shell`, in order, including those the dry-run gate
        answers without running. */
    var issued: seq<Invocation>
    /** Every URL fetched from the network, in order. */
    var fetched: seq<string>
    /** The working tree: file path to content. */
    var files: map<string, string>

    /** `Util()` followed by the option assignments of `get_args`. */
    constructor(push: bool, ignoreCleanliness: bool, dryRun: bool,
                shell: (nat, Invocation) -> Outcome, network: (string, Headers) -> Response,
                decode: string -> Option<Json>, encode: Json -> string, files: map<string, string>)
      ensures this.push == push && this.ignoreCleanliness == ignoreCleanliness && this.dryRun == dryRun
      ensures this.shell == shell && this.network == network && this.decode == decode && this.encode == encode
      ensures !branchExists && requestCache == map[] && issued == [] && fetched == [] && this.files == files
    {
      this.push := push;
      this.ignoreCleanliness := ignoreCleanliness;
      this.dryRun := dryRun;
      this.shell := shell;
      this.network := network;
      this.decode := decode;
      this.encode := encode;
      branchExists := false;
      requestCache := map[];
      issued := [];
      fetched := [];
      this.files := files;
    }

    /** What `execute_shell` returns for the `n`-th command: writes are answered with an empty
        success in dry-run mode, everything else goes to the system. */
    function Run(n: nat, inv: Invocation, readonly: bool, ignoreExitCode: bool): Result<ShellOutput> {
      if dryRun && !readonly then Ok(ShellOutput(0, "", ""))
      else Reply(shell(n, inv), ignoreExitCode, Program(inv.command))
    }

    /** `execute_shell`. */
    method ExecuteShell(command: seq<string>, readonly: bool, cwd: Option<string>, ignoreExitCode: bool)
      returns (r: Result<ShellOutput>)
      modifies this`issued
      ensures issued == old(issued) + [Invocation(command, cwd)]
      ensures r == Run(|old(issued)|, Invocation(command, cwd), readonly, ignoreExitCode)
      ensures dryRun && !readonly ==> r == Ok(ShellOutput(0, "", ""))
    {
      var inv := Invocation(command, cwd);
      if dryRun && !readonly {
        r := Ok(ShellOutput(0, "", ""));
      } else {
        r := Reply(shell(|issued|, inv), ignoreExitCode, Program(command));
      }
      issued := issued + [inv];
    }

    method Execute(inv: Invocation, readonly: bool) returns (r: Result<ShellOutput>)
      modifies this`issued
      ensures issued == old(issued) + [inv]
      ensures r == Run(|old(issued)|, inv, readonly, false)
    {
      r := ExecuteShell(inv.command, readonly, inv.cwd, false);
    }

    /** `check_repository_cleanliness`. */
    method CheckRepositoryCleanliness() returns (r: Result<bool>)
      modifies this`issued
      ensures dryRun ==> r == Ok(true) && issued == old(issued)
      ensures !dryRun ==> issued == old(issued) + [StatusCommand()] &&
                          r == Cleanliness(shell(|old(issued)|, StatusCommand()))
    {
      if dryRun {
        return Ok(true);
      }
      var out := Execute(StatusCommand(), true);
      if out.Err? {
        r := if out.error.CommandFailed? then Err(RuntimeError("Must run within a git repository"))
             else Err(out.error);
        return;
      }
      r := Ok(DirtyLines(Split(out.value.stdout, '\n')) == []);
    }

    /** `push_dependency_update`. */
    method PushDependencyUpdate() returns (r: Result<()>)
      modifies this`issued
      ensures !push ==> issued == old(issued) && r == Ok(())
      ensures push ==> issued == old(issued) + [PushCommand()] &&
                       r == Done(Run(|old(issued)|, PushCommand(), false, false))
    {
      if !push {
        return Ok(());
      }
      var out := Execute(PushCommand(), false);
      r := Done(out);
    }

    /** `commit_git`: commit everything, then push when pushing is on. */
    method CommitGit(message: string) returns (r: Result<()>)
      modifies this`issued
      ensures var n := |old(issued)|;
              var c := Run(n, CommitCommand(message), false, false);
              && (c.Err? ==> r == Err(c.error) && issued == old(issued) + [CommitCommand(message)])
              && (c.Ok? && !push ==> r == Ok(()) && issued == old(issued) + [CommitCommand(message)])
              && (c.Ok? && push ==> issued == old(issued) + [CommitCommand(message), PushCommand()] &&
                                    r == Done(Run(n + 1, PushCommand(), false, false)))
    {
      var out := Execute(CommitCommand(message), false);
      if out.Err? {
        return Err(out.error);
      }
      IssuedTwo(old(issued), CommitCommand(message), PushCommand());
      r := PushDependencyUpdate();
    }

    /** `commit_dependency_update`. */
    method CommitDependencyUpdate(language: string, dependency: string, version: string) returns (r: Result<()>)
      modifies this`issued
      ensures var message := CommitMessage(language, dependency, version);
              var c := Run(|old(issued)|, CommitCommand(message), false, false);
              && (c.Err? ==> r == Err(c.error) && issued == old(issued) + [CommitCommand(message)])
              && (c.Ok? && !push ==> r == Ok(()) && issued == old(issued) + [CommitCommand(message)])
              && (c.Ok? && push ==> issued == old(issued) + [CommitCommand(message), PushCommand()] &&
                                    r == Done(Run(|old(issued)| + 1, PushCommand(), false, false)))
    {
      r := CommitGit(CommitMessage(language, dependency, version));
    }

    /** `create_branch`: switch to the update branch, creating it unless `git branch --list`
        shows it already exists, in which case the branch is remembered as pre-existing. */
    method CreateBranch() returns (r: Result<()>)
      modifies this`issued, this`branchExists
      ensures var listed := Run(|old(issued)|, ListBranchCommand(), true, false);
              listed.Err? ==> r == Err(listed.error) && issued == old(issued) + [ListBranchCommand()] &&
                              branchExists == old(branchExists)
      ensures var listed := Run(|old(issued)|, ListBranchCommand(), true, false);
              listed.Ok? ==>
                var checkout := BranchCheckout(listed.value.stdout);
                && branchExists == (old(branchExists) || checkout == CheckoutCommand())
                && issued == old(issued) + [ListBranchCommand(), checkout]
                && r == Done(Run(|old(issued)| + 1, checkout, false, false))
    {
      var listed := Execute(ListBranchCommand(), true);
      if listed.Err? {
        return Err(listed.error);
      }
      var checkout := BranchCheckout(listed.value.stdout);
      if checkout == CheckoutCommand() {
        branchExists := true;
      }
      IssuedTwo(old(issued), ListBranchCommand(), checkout);
      var out := Execute(checkout, false);
      r := Done(out);
    }

    /** `rollback_branch`: leave and delete the update branch, unless it existed before. */
    method RollbackBranch() returns (r: Result<()>)
      modifies this`issued
      ensures branchExists ==> issued == old(issued) && r == Ok(())
      ensures !branchExists ==>
                var n := |old(issued)|;
                var back := Run(n, CheckoutPreviousCommand(), false, false);
                && (back.Err? ==> r == Err(back.error) && issued == old(issued) + [CheckoutPreviousCommand()])
                && (back.Ok? ==> issued == old(issued) + [CheckoutPreviousCommand(), DeleteBranchCommand()] &&
                                 r == Done(Run(n + 1, DeleteBranchCommand(), false, false)))
    {
      if branchExists {
        return Ok(());
      }
      var out := Execute(CheckoutPreviousCommand(), false);
      if out.Err? {
        return Err(out.error);
      }
      IssuedTwo(old(issued), CheckoutPreviousCommand(), DeleteBranchCommand());
      out := Execute(DeleteBranchCommand(), false);
      r := Done(out);
    }

    /** `reset_changes`: `git checkout .` puts the tracked files back as they were last
        committed. `restored` is that tree, which the caller knows: the tree before its own
        uncommitted writes. A checkout that fails, or is not run in a dry run, changes nothing. */
    method ResetChanges(restored: map<string, string>) returns (r: Result<()>)
      modifies this`issued, this`files
      ensures issued == old(issued) + [ResetCommand()]
      ensures r == Done(Run(|old(issued)|, ResetCommand(), false, false))
      ensures files == if r.Ok? && !dryRun then restored else old(files)
    {
      var out := Execute(ResetCommand(), false);
      r := Done(out);
      if r.Ok? && !dryRun {
        files := restored;
      }
    }

    /** What `cached_request` answers for `url` in the current state of the cache. */
    function Answer(url: string, headers: Headers): Result<Json>
      reads this`requestCache
    {
      CacheAnswer(network, decode, requestCache, url, headers)
    }

    /** `cached_request`: answer from the cache when the URL is there; otherwise fetch, reject a
        non-2xx status, decode, and cache the decoded value under the URL alone. */
    method CachedRequest(url: string, headers: Headers) returns (r: Result<Json>)
      modifies this`requestCache, this`fetched
      ensures r == old(Answer(url, headers))
      ensures requestCache == CacheAfter(network, decode, old(requestCache), url, headers)
      ensures url in old(requestCache) ==>
                r == Ok(old(requestCache)[url]) && requestCache == old(requestCache) && fetched == old(fetched)
      ensures url !in old(requestCache) ==>
                var response := network(url, headers);
                && fetched == old(fetched) + [url]
                && (!Is2xx(response.status) ==> r == Err(HttpError(response.status)) && requestCache == old(requestCache))
                && (Is2xx(response.status) && decode(response.body).None? ==>
                      r == Err(DecodeError) && requestCache == old(requestCache))
                && (Is2xx(response.status) && decode(response.body).Some? ==>
                      r == Ok(decode(response.body).value) && requestCache == old(requestCache)[url := r.value])
    {
      if url in requestCache {
        return Ok(requestCache[url]);
      }
      var response := network(url, headers);
      fetched := fetched + [url];
      if !Is2xx(response.status) {
        return Err(HttpError(response.status));
      }
      var decoded := decode(response.body);
      if decoded.None? {
        return Err(DecodeError);
      }
      requestCache := requestCache[url := decoded.value];
      r := Ok(decoded.value);
    }

    /** Two requests for one URL: the second never fetches and, once the first succeeded,
        returns what the first did, whatever headers it carries. */
    method RequestTwice(url: string, first: Headers, second: Headers) returns (a: Result<Json>, b: Result<Json>)
      modifies this`requestCache, this`fetched
      ensures a.Ok? ==> b == a
      ensures a.Ok? ==> |fetched| <= |old(fetched)| + 1
      ensures url in old(requestCache) ==> a == b == Ok(old(requestCache)[url]) && fetched == old(fetched)
    {
      a := CachedRequest(url, first);
      b := CachedRequest(url, second);
    }

    /** Reading a file: `FileNotFoundError` when it is absent. */
    function ReadFile(path: string): (r: Result<string>)
      reads this`files
      ensures r.Ok? <==> path in files
      ensures r.Ok? ==> r.value == files[path]
    {
      if path in files then Ok(files[path]) else Err(FileNotFound(path))
    }

    /** `open(path, 'w').write(content)`. */
    method WriteFile(path: string, content: string)
      modifies this`files
      ensures files == old(files)[path := content]
    {
      files := files[path := content];
    }
  }
}
