/** The line logic the Docker, Drone and GitHub-workflow updaters share (req_update/docker.py,
    drone.py, githubworkflow.py): which lines name an image, how the image splits into a
    dependency and a version, how a found version is written into the line, which repository
    files are update files, and how a file is read into lines and written back. */
module ImageLine {
  import opened Wrappers
  import opened Text
  import opened Versions

  /** The three updaters built on `Docker`: each has its own line header, and the workflow
      updater its own separator. */
  datatype ImageKind = Dockerfile | Drone | Workflow

  /** `LINE_HEADER`. */
  function Header(kind: ImageKind): string {
    match kind
    case Dockerfile => "FROM"
    case Drone => "image:"
    case Workflow => "uses:"
  }

  /** `DEPENDENCY_VERSION_SEPARATOR` (Drone hard-codes `:`). */
  function Separator(kind: ImageKind): char {
    if kind.Workflow? then '@' else ':'
  }

  /** `language`: the class name. */
  function Language(kind: ImageKind): string {
    match kind
    case Dockerfile => "Docker"
    case Drone => "Drone"
    case Workflow => "GithubWorkflow"
  }

  /** What `attempt_update_image` makes of a line before any lookup: not an image line, an
      image whose token does not hold the separator exactly once, or a dependency and its
      version. */
  datatype Image = NotImage | Unpinned(image: string) | Pinned(dependency: string, version: string)

  /** The parsing half of `attempt_update_image`: a line is an image line when its stripped
      form starts with the header; the image is the second whitespace token (`IndexError` when
      there is none), and it is pinned when the separator occurs in it exactly once. */
  function ParseImage(kind: ImageKind, line: string): (r: Result<Image>)
    ensures !StartsWith(Strip(line), Header(kind)) <==> r == Ok(NotImage)
    ensures r.Err? <==> StartsWith(Strip(line), Header(kind)) && |Tokens(line)| < 2
    ensures r.Err? ==> r.error == IndexError
    ensures r.Ok? && r.value.Unpinned? ==>
              r.value.image == Tokens(line)[1] && Count(Tokens(line)[1], Separator(kind)) != 1
  {
    if !StartsWith(Strip(line), Header(kind)) then Ok(NotImage)
    else if |Tokens(line)| < 2 then Err(IndexError)
    else
      var image := Tokens(line)[1];
      var sep := Separator(kind);
      if Count(image, sep) != 1 then Ok(Unpinned(image))
      else
        SplitCount(image, sep);
        var parts := Split(image, sep);
        Ok(Pinned(parts[0], parts[1]))
  }

  /** A pinned image is the dependency and the version joined by the separator, neither of
      which holds the separator: the split loses nothing. */
  lemma PinnedRebuildsImage(kind: ImageKind, line: string)
    requires ParseImage(kind, line).Ok? && ParseImage(kind, line).value.Pinned?
    ensures var p := ParseImage(kind, line).value;
            var sep := Separator(kind);
            && Tokens(line)[1] == p.dependency + [sep] + p.version
            && sep !in p.dependency && sep !in p.version
  {
    var image := Tokens(line)[1];
    var sep := Separator(kind);
    SplitCount(image, sep);
    var parts := Split(image, sep);
    assert |parts| == 2;
    assert JoinWith(parts, [sep]) == parts[0] + [sep] + JoinWith(parts[1..], [sep]);
    assert parts[1..] == [parts[1]];
  }

  /** `line.replace(sep + version, sep + new_version)`: every occurrence is rewritten. */
  function Rewrite(kind: ImageKind, line: string, version: string, newVersion: string): string {
    Replace(line, [Separator(kind)] + version, [Separator(kind)] + newVersion)
  }

  /** The separator and the version of a pinned image occur in its line, so the rewrite has
      something to replace. */
  lemma PinnedVersionOccurs(kind: ImageKind, line: string)
    requires ParseImage(kind, line).Ok? && ParseImage(kind, line).value.Pinned?
    ensures Contains(line, [Separator(kind)] + ParseImage(kind, line).value.version)
  {
    PinnedRebuildsImage(kind, line);
    var p := ParseImage(kind, line).value;
    TokenHoldsVersion(line, Separator(kind), p.dependency, p.version);
  }

  lemma TokenHoldsVersion(line: string, sep: char, dependency: string, version: string)
    requires |Tokens(line)| >= 2 && Tokens(line)[1] == dependency + [sep] + version
    ensures Contains(line, [sep] + version)
  {
    var k := TokenOccurs(line, 1);
    InfixOccurs(line, Tokens(line)[1], k, dependency, [sep] + version);
  }

  lemma InfixOccurs(line: string, token: string, k: nat, head: string, tail: string)
    requires k + |token| <= |line| && line[k..k + |token|] == token && token == head + tail
    ensures Contains(line, tail)
  {
    SliceOfSlice(line, k, k + |token|, |head|, |tail|);
    assert token[|head|..|head| + |tail|] == tail;
    ContainsAt(line, tail, k + |head|);
  }

  /** Writing a different version into a pinned line always changes the line. */
  lemma RewriteChangesLine(kind: ImageKind, line: string, newVersion: string)
    requires ParseImage(kind, line).Ok? && ParseImage(kind, line).value.Pinned?
    requires newVersion != ParseImage(kind, line).value.version
    ensures Rewrite(kind, line, ParseImage(kind, line).value.version, newVersion) != line
  {
    var v := ParseImage(kind, line).value.version;
    PinnedVersionOccurs(kind, line);
    var sep := Separator(kind);
    assert [sep] + v != [sep] + newVersion by {
      assert ([sep] + v)[1..] == v;
      assert ([sep] + newVersion)[1..] == newVersion;
    }
    ReplaceChanges(line, [sep] + v, [sep] + newVersion);
  }

  /** What `attempt_update_image` returns once the lookup answered `found` for a pinned image
      (`''` when there is no update): the line, the dependency (or the unpinned token) and the
      new version. */
  function Attempted(kind: ImageKind, line: string, image: Image, found: string): (string, string, string) {
    match image
    case NotImage => (line, "", "")
    case Unpinned(token) => (line, token, "")
    case Pinned(dependency, version) =>
      (if found != "" then Rewrite(kind, line, version, found) else line, dependency, found)
  }

  /** A line parser: `ParseImage` in every updater. Contracts about a whole file take it as a
      value, so that reasoning about many lines does not unfold the parser at each of them. */
  type ImageParser = (ImageKind, string) -> Result<Image>

  /** A line that changes in an update file: a pinned image line whose version became an
      upgrade `found`, written in by `Rewrite`. */
  predicate Updated(parse: ImageParser, kind: ImageKind, line: string, found: string, result: string) {
    var p := parse(kind, line);
    && p.Ok? && p.value.Pinned?
    && CompareVersions(p.value.version, found)
    && result == Rewrite(kind, line, p.value.version, found)
  }

  // ---------------------------------------------------------------------------------------
  // Update files
  // ---------------------------------------------------------------------------------------

  const WorkflowDirectory: string := ".github/workflows/"

  /** `UPDATE_FILE.match(path)` for a path without newlines: `Dockerfile$` anchored at the
      start accepts only the top-level `Dockerfile`; `^\.github/workflows/.+\.yml$` wants at
      least one character between the directory and the extension. */
  predicate IsUpdateFile(kind: ImageKind, path: string)
    requires !kind.Drone?
  {
    if kind.Dockerfile? then path == "Dockerfile"
    else
      && |path| >= |WorkflowDirectory| + 1 + 4
      && StartsWith(path, WorkflowDirectory)
      && EndsWith(path, ".yml")
      && '\n' !in path
  }

  /** The paths of `git ls-files` output that are update files, in listing order. */
  function UpdateFiles(kind: ImageKind, listing: seq<string>): (r: seq<string>)
    requires !kind.Drone?
    ensures forall p :: p in r <==> p in listing && IsUpdateFile(kind, p)
    ensures |r| <= |listing|
  {
    if listing == [] then []
    else
      var rest := UpdateFiles(kind, listing[1..]);
      assert forall p :: p in listing <==> p == listing[0] || p in listing[1..];
      if IsUpdateFile(kind, listing[0]) then [listing[0]] + rest else rest
  }

  /** A workflow file is a `.yml` file directly or indirectly under `.github/workflows/` with
      a non-empty name part. */
  lemma WorkflowFileShape(path: string)
    requires IsUpdateFile(Workflow, path)
    ensures var name := path[|WorkflowDirectory|..|path| - 4];
            |name| > 0 && path == WorkflowDirectory + name + ".yml"
  {
    var n := |WorkflowDirectory|;
    assert path == path[..n] + path[n..|path| - 4] + path[|path| - 4..];
  }

  // ---------------------------------------------------------------------------------------
  // Reading and writing an update file
  // ---------------------------------------------------------------------------------------

  /** `[line.strip('\n') for line in lines]`. */
  function StripNewlines(pieces: seq<string>): (r: seq<string>)
    ensures |r| == |pieces|
  {
    if pieces == [] then [] else [StripChars(pieces[0], {'\n'})] + StripNewlines(pieces[1..])
  }

  /** `read_update_file`: the file's lines without their newlines. */
  function ReadLines(content: string): seq<string> {
    StripNewlines(Lines(content))
  }

  /** A piece of `readlines()` that ends in its only newline loses just that newline. */
  lemma StripLinePiece(x: string)
    requires '\n' !in x
    ensures StripChars(x + "\n", {'\n'}) == x
    ensures StripChars(x, {'\n'}) == x
  {
    if x != [] {
      assert (x + "\n")[0] == x[0];
      assert LStripChars(x + "\n", {'\n'}) == x + "\n";
      assert RStripChars(x + "\n", {'\n'}) == RStripChars(x, {'\n'});
    } else {
      assert LStripChars("\n", {'\n'}) == LStripChars("", {'\n'});
    }
    assert LStripChars(x, {'\n'}) == x;
    assert RStripChars(x, {'\n'}) == x;
  }

  /** The file `content` without its final newline, if it has one. */
  function DropFinalNewline(content: string): string {
    if EndsWith(content, "\n") then content[..|content| - 1] else content
  }

  lemma NoFinalNewline(content: string)
    requires '\n' !in content
    ensures DropFinalNewline(content) == content
  {
    if content != [] {
      assert content[|content| - 1] in content;
      assert content[|content| - 1..] == [content[|content| - 1]];
    }
  }

  /** The last line of a file that ends in a newline. */
  lemma JoinLast(content: string, x: string)
    requires content == x + "\n"
    requires ReadLines(content) == [x]
    ensures JoinWith(ReadLines(content), "\n") == DropFinalNewline(content)
  {
    assert content[..|content| - 1] == x;
  }

  /** One step of the join: a first line `x`, its newline, and the lines `rest` of the
      rest of the file. */
  lemma JoinStep(x: string, tail: string, rest: seq<string>)
    requires tail != [] && rest != [] && JoinWith(rest, "\n") == DropFinalNewline(tail)
    ensures JoinWith([x] + rest, "\n") == DropFinalNewline(x + "\n" + tail)
  {
    assert JoinWith([x] + rest, "\n") == x + "\n" + JoinWith(rest, "\n");
    DropLast(x + "\n", tail);
  }

  lemma ReadLinesNonEmpty(content: string)
    requires content != []
    ensures ReadLines(content) != []
  {
    assert |Lines(content)| > 0;
  }

  /** `readlines()` peels off the first line and its newline. */
  lemma FirstLine(content: string) returns (x: string, tail: string)
    requires '\n' in content
    ensures '\n' !in x && content == x + "\n" + tail
    ensures ReadLines(content) == [x] + ReadLines(tail)
  {
    var i := IndexOf(content, '\n');
    x := content[..i];
    tail := content[i + 1..];
    assert content == x + "\n" + tail;
    assert Lines(content) == [x + "\n"] + Lines(tail);
    StripLinePiece(x);
  }

  /** A file without newlines is one line. */
  lemma OneLine(content: string)
    requires content != [] && '\n' !in content
    ensures ReadLines(content) == [content]
    ensures DropFinalNewline(content) == content
  {
    StripLinePiece(content);
    assert Lines(content) == [content];
    NoFinalNewline(content);
  }

  /** Writing the lines back with `'\n'.join` gives the file without its final newline. */
  lemma {:induction false} ReadLinesJoin(content: string)
    ensures JoinWith(ReadLines(content), "\n") == DropFinalNewline(content)
    decreases |content|
  {
    if content != [] {
      if '\n' !in content {
        OneLine(content);
      } else {
        var x, tail := FirstLine(content);
        ReadLinesJoin(tail);
        if tail == [] {
          assert ReadLines(tail) == [] by { assert Lines(tail) == []; }
          JoinLast(content, x);
        } else {
          ReadLinesNonEmpty(tail);
          JoinStep(x, tail, ReadLines(tail));
        }
      }
    }
  }
}
