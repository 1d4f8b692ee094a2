/** The image updaters (req_update/docker.py, drone.py, githubworkflow.py): one class for the
    three, told apart by their kind. Each finds the pinned image lines of its update files,
    asks a registry for the newest tag under `compare_versions`, writes it into the line and
    commits once per updated line. The Docker and Drone lookups remember the version chosen
    for each dependency in `knownVersions`. */
module Docker {
  import opened Wrappers
  import opened Text
  import opened Shell
  import opened Versions
  import opened ImageLine
  import opened Registry
  import opened JsonValue

  // ---------------------------------------------------------------------------------------
  // The `known_versions` cache
  // ---------------------------------------------------------------------------------------

  /** `known_versions.get(dependency, '')`. */
  function Cached(known: map<string, string>, dependency: string): string {
    if dependency in known then known[dependency] else ""
  }

  /** The answer docker.py:83-87 and 118-129 give without asking the registry, as written:
      `latest` is never updated, and a non-empty cached version is returned unless it equals
      the original, whether or not it is an upgrade of it. `None`: the registry is asked. */
  function KnownAnswerAsWritten(known: map<string, string>, dependency: string, original: string): Option<string> {
    if original == "latest" then Some("")
    else
      var cached := Cached(known, dependency);
      if cached == "" then None
      else if cached == original then Some("")
      else Some(cached)
  }

  lemma DottedSkeleton(major: string, minor: string)
    requires IsDigits(major) && IsDigits(minor)
    ensures Skeleton(major + ("." + minor)) == "."
  {
    SkeletonAppend(major, "." + minor);
    SkeletonAppend(".", minor);
    SkeletonOfDigits(major);
    SkeletonOfDigits(minor);
    SkeletonOfText(".");
  }

  lemma DottedRuns(major: string, minor: string)
    requires IsDigits(major) && IsDigits(minor)
    ensures DigitRuns(major + ("." + minor)) == [DigitsValue(major), DigitsValue(minor)]
  {
    DigitRunsAfterRun(major, "." + minor);
    DigitRunsAfterText(".", minor);
    DigitRunsAfterRun(minor, []);
    assert minor + [] == minor;
  }

  /** A `major.minor` version: one dot between two digit runs. */
  lemma DottedVersion(major: string, minor: string)
    requires IsDigits(major) && IsDigits(minor)
    ensures Skeleton(major + "." + minor) == "."
    ensures DigitRuns(major + "." + minor) == [DigitsValue(major), DigitsValue(minor)]
  {
    assert major + "." + minor == major + ("." + minor);
    DottedSkeleton(major, minor);
    DottedRuns(major, minor);
  }

  /** Two `FROM` lines of one image, the first resolved to `m.older` (for instance when the
      registry could not be read, or when its first 100 tags stop there), make the second line
      go from `m.newer` down to `m.older`: say `python:3.12` becomes `python:3.11`. */
  lemma {:induction false} KnownAnswerAsWrittenDowngrades(dependency: string, major: string, older: string, newer: string)
    requires IsDigits(major) && IsDigits(older) && IsDigits(newer)
    requires DigitsValue(older) < DigitsValue(newer)
    ensures KnownAnswerAsWritten(map[dependency := major + "." + older], dependency, major + "." + newer) ==
            Some(major + "." + older)
    ensures CompareVersions(major + "." + older, major + "." + newer)
    ensures !CompareVersions(major + "." + newer, major + "." + older)
  {
    var o := major + "." + older;
    var n := major + "." + newer;
    DottedVersion(major, older);
    DottedVersion(major, newer);
    assert o != n by { assert DigitRuns(o) != DigitRuns(n); }
    var m, a, b := DigitsValue(major), DigitsValue(older), DigitsValue(newer);
    assert [m, b][1..] == [b] && [m, a][1..] == [a];
    assert !RunsLess([m, b], [m, a]);
    assert o != "latest" by { assert o[0] == major[0]; }
  }

  /** The corrected answer: a cached version is used only when it is an upgrade of this
      original, or equals it (no upgrade); otherwise the registry is asked. */
  function KnownAnswer(known: map<string, string>, dependency: string, original: string): (r: Option<string>)
    ensures r.Some? && r.value != "" ==> CompareVersions(original, r.value)
  {
    if original == "latest" then Some("")
    else
      var cached := Cached(known, dependency);
      if cached == "" then None
      else if cached == original then Some("")
      else if CompareVersions(original, cached) then Some(cached)
      else None
  }

  /** The corrected answer differs from the written one exactly where the written one returns
      a cached version that is not an upgrade of the original. */
  lemma KnownAnswerDiffers(known: map<string, string>, dependency: string, original: string)
    ensures KnownAnswer(known, dependency, original) != KnownAnswerAsWritten(known, dependency, original) <==>
            var cached := Cached(known, dependency);
            && original != "latest" && cached != "" && cached != original
            && !CompareVersions(original, cached)
  {
  }

  /** The version a lookup settles on: its answer, or the original when it answers `''`. */
  function Selected(original: string, answer: string): string {
    if answer == "" then original else answer
  }

  // ---------------------------------------------------------------------------------------
  // A lookup and the state it reads and writes
  // ---------------------------------------------------------------------------------------

  /** The network and `json.loads` that `cached_request` runs against. */
  datatype Hub = Hub(network: (string, Headers) -> Response, decode: string -> Option<Json>)

  /** What a lookup reads and may change: the request cache and `known_versions`. */
  datatype Lookup = Lookup(cache: map<string, Json>, known: map<string, string>)

  /** A successful `find_updated_version(dependency, original)` from `before`: it answered
      `found` (an upgrade of the original, or `''`) and left `after`. A workflow asks GitHub
      for its tags, an HTTP or decoding error answering `''`; Docker and Drone use the
      remembered version when it settles the question, and otherwise ask Docker Hub for the
      tags, take the newest under `compare_versions` and remember it. */
  predicate Finds(hub: Hub, kind: ImageKind, before: Lookup, dependency: string, original: string,
                  found: string, after: Lookup) {
    && (found != "" ==> CompareVersions(original, found))
    && if kind.Workflow? then
         var url := WorkflowTagsUrl(dependency);
         var a := CacheAnswer(hub.network, hub.decode, before.cache, url, GithubApiHeaders);
         && after == Lookup(CacheAfter(hub.network, hub.decode, before.cache, url, GithubApiHeaders), before.known)
         && (a.Err? ==> (a.error.HttpError? || a.error.DecodeError?) && found == "")
         && (a.Ok? ==> WorkflowCandidates(a.value).Ok? &&
                       IsNewest(original, WorkflowCandidates(a.value).value, Selected(original, found)))
       else if KnownAnswer(before.known, dependency, original).Some? then
         found == KnownAnswer(before.known, dependency, original).value && after == before
       else
         var url := DockerTagsUrl(dependency);
         var c := DockerLookup(CacheAnswer(hub.network, hub.decode, before.cache, url, []));
         && c.Ok?
         && after.cache == CacheAfter(hub.network, hub.decode, before.cache, url, [])
         && (c.value.None? ==> found == "" && after.known == before.known)
         && (c.value.Some? ==>
               && IsNewest(original, c.value.value, Selected(original, found))
               && after.known == before.known[dependency := Selected(original, found)])
  }

  /** The tags a lookup from `before` weighs, when it reaches a registry and can read it. */
  function Candidates(hub: Hub, kind: ImageKind, before: Lookup, dependency: string, original: string): Option<seq<string>> {
    if kind.Workflow? then
      var a := CacheAnswer(hub.network, hub.decode, before.cache, WorkflowTagsUrl(dependency), GithubApiHeaders);
      if a.Ok? && WorkflowCandidates(a.value).Ok? then Some(WorkflowCandidates(a.value).value) else None
    else if KnownAnswer(before.known, dependency, original).Some? then None
    else
      var c := DockerLookup(CacheAnswer(hub.network, hub.decode, before.cache, DockerTagsUrl(dependency), []));
      if c.Ok? && c.value.Some? then c.value else None
  }

  /** A lookup that weighs a tag newer than the original never answers `''`: the answer is
      itself an upgrade that no tag it weighed improves on. */
  lemma UpgradeIsFound(hub: Hub, kind: ImageKind, before: Lookup, dependency: string, original: string,
                       found: string, after: Lookup, tag: string)
    requires Finds(hub, kind, before, dependency, original, found, after)
    requires Candidates(hub, kind, before, dependency, original).Some?
    requires tag in Candidates(hub, kind, before, dependency, original).value && CompareVersions(original, tag)
    ensures found != "" && CompareVersions(original, found)
    ensures forall t :: t in Candidates(hub, kind, before, dependency, original).value ==> !CompareVersions(found, t)
  {
  }

  /** At most one commit per line, and the count of lines that took a new version. */
  function UpdateCount(found: seq<string>): nat {
    if found == [] then 0
    else UpdateCount(found[..|found| - 1]) + (if found[|found| - 1] != "" then 1 else 0)
  }

  lemma {:induction false} UpdateCountPositive(found: seq<string>)
    ensures UpdateCount(found) > 0 <==> exists i :: 0 <= i < |found| && found[i] != ""
  {
    if found != [] {
      var front := found[..|found| - 1];
      UpdateCountPositive(front);
      if UpdateCount(front) > 0 {
        var i :| 0 <= i < |front| && front[i] != "";
        assert found[i] == front[i];
      }
      if found[|found| - 1] == "" && exists i :: 0 <= i < |found| && found[i] != "" {
        var i :| 0 <= i < |found| && found[i] != "";
        assert front[i] == found[i];
      }
    }
  }

  /** What became of one line of an update file. The line parses. A pinned image is looked
      up, taking the lookup state from `before` to `after` and answering `answer`; any other
      line is not looked up. The version found is the answer when the image names a
      dependency, `''` otherwise. The line is kept when nothing was found and rewritten to
      the upgrade found otherwise. */
  predicate LineOutcome(hub: Hub, parse: ImageParser, kind: ImageKind, line: string,
                        before: Lookup, answer: string, after: Lookup, found: string, result: string) {
    && parse(kind, line).Ok?
    && LineLookup(hub, kind, parse(kind, line).value, before, answer, after, found)
    && LineResult(parse, kind, line, found, result)
  }

  /** The lookup of one parsed line: only a pinned image is looked up, and only one that names
      a dependency can have a version found. */
  predicate LineLookup(hub: Hub, kind: ImageKind, image: Image, before: Lookup, answer: string, after: Lookup, found: string) {
    if image.Pinned? then
      && Finds(hub, kind, before, image.dependency, image.version, answer, after)
      && found == (if image.dependency == "" then "" else answer)
    else answer == "" && found == "" && after == before
  }

  /** The line written back: kept when nothing was found, the upgrade written in otherwise. */
  predicate LineResult(parse: ImageParser, kind: ImageKind, line: string, found: string, result: string) {
    if found == "" then result == line else Updated(parse, kind, line, found, result)
  }

  /** The lines of a file in turn: line `i` is looked up from `looks[i]`, leaving `looks[i + 1]`. */
  predicate Outcomes(hub: Hub, parse: ImageParser, kind: ImageKind, lines: seq<string>, looks: seq<Lookup>,
                     answers: seq<string>, found: seq<string>, buffer: seq<string>) {
    && |looks| == |lines| + 1 && |answers| == |lines| && |found| == |lines| && |buffer| == |lines|
    && forall i :: 0 <= i < |lines| ==>
         LineOutcome(hub, parse, kind, lines[i], looks[i], answers[i], looks[i + 1], found[i], buffer[i])
  }

  /** An attempt that names a dependency and finds a version, on a line that parses, is an
      update of that line when the version found is an upgrade. */
  lemma AttemptIsUpdate(parse: ImageParser, kind: ImageKind, line: string, image: Image, found: string)
    requires parse(kind, line) == Ok(image)
    requires Attempted(kind, line, image, found).1 != "" && Attempted(kind, line, image, found).2 != ""
    requires image.Pinned? ==> CompareVersions(image.version, found)
    ensures Updated(parse, kind, line, found, Attempted(kind, line, image, found).0)
  {
  }

  lemma OutcomesSnoc(hub: Hub, parse: ImageParser, kind: ImageKind, lines: seq<string>, looks: seq<Lookup>,
                     answers: seq<string>, found: seq<string>, buffer: seq<string>,
                     line: string, answer: string, next: Lookup, f: string, result: string)
    requires Outcomes(hub, parse, kind, lines, looks, answers, found, buffer)
    requires LineOutcome(hub, parse, kind, line, looks[|lines|], answer, next, f, result)
    ensures Outcomes(hub, parse, kind, lines + [line], looks + [next], answers + [answer], found + [f], buffer + [result])
  {
    var ls, ks, ans, fs, bs := lines + [line], looks + [next], answers + [answer], found + [f], buffer + [result];
    forall j | 0 <= j < |ls| ensures LineOutcome(hub, parse, kind, ls[j], ks[j], ans[j], ks[j + 1], fs[j], bs[j]) {
      if j < |lines| {
        assert LineOutcome(hub, parse, kind, lines[j], looks[j], answers[j], looks[j + 1], found[j], buffer[j]);
        assert ls[j] == lines[j] && ks[j] == looks[j] && ks[j + 1] == looks[j + 1];
        assert ans[j] == answers[j] && fs[j] == found[j] && bs[j] == buffer[j];
      } else {
        assert ks[j] == looks[|lines|] && ks[j + 1] == next;
      }
    }
  }

  /** Replacing the line at the front of the untouched part moves it into the done part. */
  lemma BufferStep(lines: seq<string>, previous: seq<string>, buffer: seq<string>, i: nat)
    requires i < |lines| == |previous| && previous[i..] == lines[i..]
    requires |buffer| == |previous| && buffer == previous[i := buffer[i]]
    ensures buffer[i + 1..] == lines[i + 1..]
    ensures buffer[..i + 1] == previous[..i] + [buffer[i]]
    ensures lines[..i + 1] == lines[..i] + [lines[i]]
    ensures previous[i] == lines[i]
  {
    assert previous[i] == previous[i..][0];
    forall t | i + 1 <= t < |lines| ensures buffer[t] == lines[t] {
      assert previous[t] == previous[i..][t - i];
    }
  }

  /** The working tree after a line of the file: written with the new buffer when the line
      changed, as it was otherwise. */
  lemma FilesStep(start: map<string, string>, target: string, previous: seq<string>, buffer: seq<string>,
                  updates: bool, changed: bool, current: map<string, string>, next: map<string, string>)
    requires current == if updates then start[target := JoinWith(previous, "\n")] else start
    requires changed ==> next == current[target := JoinWith(buffer, "\n")]
    requires !changed ==> next == current && buffer == previous
    ensures next == if updates || changed then start[target := JoinWith(buffer, "\n")] else start
  {
    if changed && updates {
      assert start[target := JoinWith(previous, "\n")][target := JoinWith(buffer, "\n")] ==
             start[target := JoinWith(buffer, "\n")];
    }
  }

  /** The command log after a line of the file: one more commit exactly when the line was
      updated. */
  lemma LogStep(start: seq<Invocation>, before: seq<Invocation>, after: seq<Invocation>, found: seq<string>, v: string)
    requires |start| <= |before| <= |after| && before[..|start|] == start && after[..|before|] == before
    requires CommitCount(before[|start|..]) == UpdateCount(found)
    requires v == "" ==> after == before
    requires v != "" ==> CommitCount(after[|before|..]) == 1
    ensures after[..|start|] == start
    ensures CommitCount(after[|start|..]) == UpdateCount(found + [v])
  {
    var n := |start|;
    LogGrew(after, before, n);
    CommitCountAppend(before[n..], after[|before|..]);
    assert (found + [v])[..|found|] == found;
    if v == "" {
      assert after[|before|..] == [];
    }
  }

  /** What the loop of `update_dependencies` works on: the working tree, the command log and
      the lookup state. */
  datatype FileState = FileState(files: map<string, string>, log: seq<Invocation>, lookup: Lookup)

  /** What `update_dependencies_file` made of one update file: the version found for each of its
      lines (`''` for none), the lines written back, whether any line was updated, and the
      lookup state before each line with the answer of each lookup. */
  datatype FileRun = FileRun(found: seq<string>, buffer: seq<string>, updated: bool, looks: seq<Lookup>, answers: seq<string>)

  /** One completed call of `update_dependencies_file` on `path`: the file was there, each of
      its lines was kept or updated, one commit was issued per updated line, and the file was
      written back when a line was updated outside a dry run. */
  predicate FileStep(hub: Hub, parse: ImageParser, kind: ImageKind, dryRun: bool, path: string,
                     before: FileState, after: FileState, run: FileRun) {
    && path in before.files
    && Outcomes(hub, parse, kind, ReadLines(before.files[path]), run.looks, run.answers, run.found, run.buffer)
    && run.looks[0] == before.lookup && run.looks[|run.looks| - 1] == after.lookup
    && (run.updated <==> UpdateCount(run.found) > 0)
    && |before.log| <= |after.log| && after.log[..|before.log|] == before.log
    && CommitCount(after.log[|before.log|..]) == UpdateCount(run.found)
    && after.files == if run.updated && !dryRun then before.files[path := JoinWith(run.buffer, "\n")] else before.files
  }

  /** The calls over `paths`, in order: call `i` takes `states[i]` to `states[i + 1]`. */
  predicate FileSteps(hub: Hub, parse: ImageParser, kind: ImageKind, dryRun: bool, paths: seq<string>,
                      states: seq<FileState>, runs: seq<FileRun>) {
    && |states| == |paths| + 1 && |runs| == |paths|
    && forall i :: 0 <= i < |paths| ==> FileStep(hub, parse, kind, dryRun, paths[i], states[i], states[i + 1], runs[i])
  }

  lemma FileStepsSnoc(hub: Hub, parse: ImageParser, kind: ImageKind, dryRun: bool, paths: seq<string>, i: nat,
                      states: seq<FileState>, runs: seq<FileRun>, next: FileState, run: FileRun)
    requires i < |paths| && FileSteps(hub, parse, kind, dryRun, paths[..i], states, runs)
    requires FileStep(hub, parse, kind, dryRun, paths[i], states[i], next, run)
    ensures FileSteps(hub, parse, kind, dryRun, paths[..i + 1], states + [next], runs + [run])
    ensures (exists j :: 0 <= j < |runs + [run]| && (runs + [run])[j].updated) <==>
            (exists j :: 0 <= j < |runs| && runs[j].updated) || run.updated
  {
    var ps, ss, rs := paths[..i + 1], states + [next], runs + [run];
    forall j | 0 <= j < |ps| ensures FileStep(hub, parse, kind, dryRun, ps[j], ss[j], ss[j + 1], rs[j]) {
      if j < i {
        assert ps[j] == paths[..i][j] && ss[j] == states[j] && ss[j + 1] == states[j + 1] && rs[j] == runs[j];
      }
    }
    if exists j :: 0 <= j < |rs| && rs[j].updated {
      var j :| 0 <= j < |rs| && rs[j].updated;
      if j < |runs| {
        assert runs[j] == rs[j];
      }
    }
    if exists j :: 0 <= j < |runs| && runs[j].updated {
      var j :| 0 <= j < |runs| && runs[j].updated;
      assert rs[j] == runs[j];
    }
    if run.updated {
      assert rs[|runs|] == run;
    }
  }

  class ImageUpdater {
    const util: Util
    const kind: ImageKind
    /** The line parser, `ParseImage`. */
    const parse: ImageParser
    /** `known_versions`: the version last chosen for each dependency. */
    var knownVersions: map<string, string>

    constructor(util: Util, kind: ImageKind)
      ensures this.util == util && this.kind == kind && parse == ParseImage && knownVersions == map[]
    {
      parse := ParseImage;
      this.util := util;
      this.kind := kind;
      knownVersions := map[];
    }

    /** The network and decoder the lookups go through. */
    function HubOf(): Hub {
      Hub(util.network, util.decode)
    }

    /** The lookup state now: the request cache and `known_versions`. */
    ghost function Now(): Lookup
      reads util`requestCache, this`knownVersions
    {
      Lookup(util.requestCache, knownVersions)
    }

    /** The registry half of Docker's `find_updated_version`: fetch the tags (an HTTP error
        counts as none), take the newest upgrade, remember it, and answer `''` when it is the
        original. A reply without `results` or a tag without `name` answers `''` and
        remembers nothing. */
    method LookupDocker(dependency: string, original: string) returns (r: Result<string>)
      modifies util`requestCache, util`fetched, this`knownVersions
      ensures var c := DockerLookup(old(util.Answer(DockerTagsUrl(dependency), [])));
              && (c.Err? ==> r == Err(c.error) && knownVersions == old(knownVersions))
              && (c == Ok(None) ==> r == Ok("") && knownVersions == old(knownVersions))
              && (c.Ok? && c.value.Some? ==>
                    && r.Ok?
                    && IsNewest(original, c.value.value, Selected(original, r.value))
                    && knownVersions == old(knownVersions)[dependency := Selected(original, r.value)])
      ensures r.Ok? && r.value != "" ==> CompareVersions(original, r.value)
      ensures util.requestCache == CacheAfter(util.network, util.decode, old(util.requestCache), DockerTagsUrl(dependency), [])
    {
      var answer := util.CachedRequest(DockerTagsUrl(dependency), []);
      var candidates := DockerLookup(answer);
      if candidates.Err? {
        return Err(candidates.error);
      }
      if candidates.value.None? {
        return Ok("");
      }
      var best := SelectNewest(original, candidates.value.value);
      knownVersions := knownVersions[dependency := best];
      if best == original {
        r := Ok("");
      } else {
        NewestNotEmpty(original, candidates.value.value, best);
        r := Ok(best);
      }
    }

    /** githubworkflow.py's `find_updated_version`: fetch the tag references with the GitHub
        headers (an HTTP or decoding error answers `''`), strip `refs/tags/`, and answer the
        newest upgrade, or `''`. It never touches `knownVersions`. */
    method LookupWorkflow(dependency: string, original: string) returns (r: Result<string>)
      modifies util`requestCache, util`fetched
      ensures var a := old(util.Answer(WorkflowTagsUrl(dependency), GithubApiHeaders));
              && (a.Err? && (a.error.HttpError? || a.error.DecodeError?) ==> r == Ok(""))
              && (a.Err? && !(a.error.HttpError? || a.error.DecodeError?) ==> r == Err(a.error))
              && (a.Ok? ==>
                    var c := WorkflowCandidates(a.value);
                    && (c.Err? ==> r == Err(c.error))
                    && (c.Ok? ==> r.Ok? && IsNewest(original, c.value, Selected(original, r.value))))
      ensures r.Ok? && r.value != "" ==> CompareVersions(original, r.value)
      ensures util.requestCache ==
              CacheAfter(util.network, util.decode, old(util.requestCache), WorkflowTagsUrl(dependency), GithubApiHeaders)
    {
      var tags := util.CachedRequest(WorkflowTagsUrl(dependency), GithubApiHeaders);
      if tags.Err? {
        if tags.error.HttpError? || tags.error.DecodeError? {
          return Ok("");
        }
        return Err(tags.error);
      }
      var candidates := WorkflowCandidates(tags.value);
      if candidates.Err? {
        return Err(candidates.error);
      }
      var mostRecent := SelectNewest(original, candidates.value);
      if mostRecent != original {
        NewestNotEmpty(original, candidates.value, mostRecent);
        r := Ok(mostRecent);
      } else {
        r := Ok("");
      }
    }

    /** `find_updated_version`, with the cache read corrected: an answer is `''` or an
        upgrade of the original; the workflow lookup leaves `knownVersions` alone; a usable
        cached answer costs no request. */
    method FindUpdatedVersion(dependency: string, original: string) returns (r: Result<string>)
      modifies util`requestCache, util`fetched, this`knownVersions
      ensures r.Ok? && r.value != "" ==> CompareVersions(original, r.value)
      ensures kind.Workflow? ==> knownVersions == old(knownVersions)
      ensures !kind.Workflow? && KnownAnswer(old(knownVersions), dependency, original).Some? ==>
                && r == Ok(KnownAnswer(old(knownVersions), dependency, original).value)
                && knownVersions == old(knownVersions)
                && util.requestCache == old(util.requestCache) && util.fetched == old(util.fetched)
      ensures !kind.Workflow? && original == "latest" ==> r == Ok("") && util.fetched == old(util.fetched)
      ensures !kind.Workflow? && KnownAnswer(old(knownVersions), dependency, original).None? ==>
                var c := DockerLookup(old(util.Answer(DockerTagsUrl(dependency), [])));
                && (c.Err? ==> r == Err(c.error) && knownVersions == old(knownVersions))
                && (c == Ok(None) ==> r == Ok("") && knownVersions == old(knownVersions))
                && (c.Ok? && c.value.Some? ==>
                      && r.Ok? && IsNewest(original, c.value.value, Selected(original, r.value))
                      && knownVersions == old(knownVersions)[dependency := Selected(original, r.value)])
      ensures kind.Workflow? ==>
                var a := old(util.Answer(WorkflowTagsUrl(dependency), GithubApiHeaders));
                && (a.Err? && (a.error.HttpError? || a.error.DecodeError?) ==> r == Ok(""))
                && (a.Err? && !(a.error.HttpError? || a.error.DecodeError?) ==> r == Err(a.error))
                && (a.Ok? ==>
                      var c := WorkflowCandidates(a.value);
                      && (c.Err? ==> r == Err(c.error))
                      && (c.Ok? ==> r.Ok? && IsNewest(original, c.value, Selected(original, r.value))))
      ensures r.Ok? ==> Finds(HubOf(), kind, old(Now()), dependency, original, r.value, Now())
    {
      if kind.Workflow? {
        r := LookupWorkflow(dependency, original);
        return;
      }
      var known := KnownAnswer(knownVersions, dependency, original);
      if known.Some? {
        return Ok(known.value);
      }
      r := LookupDocker(dependency, original);
    }

    /** `attempt_update_image`: a line that is not a pinned image line comes back unchanged
        with no lookup; a pinned one comes back with its dependency and the lookup's answer,
        rewritten when the answer is an upgrade. */
    method AttemptUpdateImage(line: string) returns (r: Result<(string, string, string)>)
      modifies util`requestCache, util`fetched, this`knownVersions
      ensures var p := parse(kind, line);
              && (p.Err? ==> r == Err(p.error))
              && (p.Ok? && !p.value.Pinned? ==>
                    && r == Ok(Attempted(kind, line, p.value, ""))
                    && util.fetched == old(util.fetched) && Now() == old(Now()))
              && (p.Ok? && p.value.Pinned? && r.Ok? ==>
                    && r.value == Attempted(kind, line, p.value, r.value.2)
                    && Finds(HubOf(), kind, old(Now()), p.value.dependency, p.value.version, r.value.2, Now()))
    {
      var p := parse(kind, line);
      if p.Err? {
        return Err(p.error);
      }
      if !p.value.Pinned? {
        return Ok(Attempted(kind, line, p.value, ""));
      }
      var found := FindUpdatedVersion(p.value.dependency, p.value.version);
      if found.Err? {
        return Err(found.error);
      }
      r := Ok(Attempted(kind, line, p.value, found.value));
    }

    /** `commit_dockerfile` / `commit_drone`: write the lines back unless dry-run, then
        commit the update. */
    method CommitBuffer(buffer: seq<string>, target: string, dependency: string, version: string)
      returns (r: Result<()>)
      modifies util`files, util`issued
      ensures |old(util.issued)| < |util.issued| && util.issued[..|old(util.issued)|] == old(util.issued)
      ensures util.dryRun ==> util.files == old(util.files)
      ensures !util.dryRun ==> util.files == old(util.files)[target := JoinWith(buffer, "\n")]
      ensures r.Ok? ==> CommitCount(util.issued[|old(util.issued)|..]) == 1
    {
      if !util.dryRun {
        util.WriteFile(target, JoinWith(buffer, "\n"));
      }
      ghost var n := |util.issued|;
      r := util.CommitDependencyUpdate(Language(kind), dependency, version);
      ghost var added := util.issued[n..];
      assert added == [CommitCommand(CommitMessage(Language(kind), dependency, version))] ||
             added == [CommitCommand(CommitMessage(Language(kind), dependency, version)), PushCommand()];
      assert CommitCount([added[0]]) == 1 by {
        assert IsCommit(added[0]) && [added[0]][..0] == [];
      }
      if |added| == 2 {
        assert added[..|added| - 1] == [added[0]] && !IsCommit(added[1]);
      } else {
        assert added == [added[0]];
      }
    }

    /** One pass of the per-line loop: attempt line `i` of the buffer; when the attempt names
        a dependency and finds a version, put the new line in place and commit the buffer.
        The answer is the version found, or `''` for a line left as it was; `answer` is what
        the lookup answered, when there was one. */
    method UpdateLine(buffer: seq<string>, i: nat, target: string, ghost lines: seq<string>, ghost looks: seq<Lookup>,
                      ghost answers: seq<string>, ghost found: seq<string>)
      returns (r: Result<string>, updated: seq<string>, ghost answer: string)
      requires i < |buffer| == |lines| && buffer[i..] == lines[i..]
      requires Outcomes(HubOf(), parse, kind, lines[..i], looks, answers, found, buffer[..i]) && looks[i] == Now()
      modifies util`requestCache, util`fetched, util`issued, util`files, this`knownVersions
      ensures |old(util.issued)| <= |util.issued| && util.issued[..|old(util.issued)|] == old(util.issued)
      ensures util.dryRun ==> util.files == old(util.files)
      ensures r.Ok? ==> |updated| == |buffer| && updated == buffer[i := updated[i]]
      ensures r.Ok? ==>
                && updated[i + 1..] == lines[i + 1..]
                && Outcomes(HubOf(), parse, kind, lines[..i + 1], looks + [Now()], answers + [answer], found + [r.value],
                            updated[..i + 1])
      ensures r.Ok? && r.value == "" ==>
                updated == buffer && util.issued == old(util.issued) && util.files == old(util.files)
      ensures r.Ok? && r.value != "" ==>
                && CommitCount(util.issued[|old(util.issued)|..]) == 1
                && (!util.dryRun ==> util.files == old(util.files)[target := JoinWith(updated, "\n")])
    {
      updated := buffer;
      BufferStep(lines, buffer, buffer, i);
      var attempt := AttemptUpdateImage(buffer[i]);
      if attempt.Err? {
        return Err(attempt.error), updated, "";
      }
      var (newLine, dependency, version) := attempt.value;
      answer := if parse(kind, buffer[i]).value.Pinned? then version else "";
      if dependency == "" || version == "" {
        OutcomesSnoc(HubOf(), parse, kind, lines[..i], looks, answers, found, buffer[..i], lines[i], answer, Now(), "", buffer[i]);
        return Ok(""), updated, answer;
      }
      AttemptIsUpdate(parse, kind, buffer[i], parse(kind, buffer[i]).value, version);
      updated := buffer[i := newLine];
      BufferStep(lines, buffer, updated, i);
      OutcomesSnoc(HubOf(), parse, kind, lines[..i], looks, answers, found, buffer[..i], lines[i], answer, Now(), version, newLine);
      ghost var reached := Now();
      var c := CommitBuffer(updated, target, dependency, version);
      if c.Err? {
        return Err(c.error), updated, answer;
      }
      assert Now() == reached;
      r := Ok(version);
    }

    /** The per-line loop of `update_dependencies_file` (and of Drone's
        `update_dependencies`): each line that yields both a dependency and a version is
        replaced and committed, every other line is left as it was. Line `i` is looked up
        from `looks[i]`: the lookups run in order over one cache and one `known_versions`. */
    method UpdateLines(lines: seq<string>, target: string)
      returns (r: Result<bool>, ghost found: seq<string>, buffer: seq<string>, ghost looks: seq<Lookup>,
               ghost answers: seq<string>)
      modifies util`requestCache, util`fetched, util`issued, util`files, this`knownVersions
      ensures |old(util.issued)| <= |util.issued| && util.issued[..|old(util.issued)|] == old(util.issued)
      ensures util.dryRun ==> util.files == old(util.files)
      ensures r.Ok? ==>
                && Outcomes(HubOf(), parse, kind, lines, looks, answers, found, buffer)
                && looks[0] == old(Now()) && looks[|lines|] == Now()
                && (r.value <==> UpdateCount(found) > 0)
                && CommitCount(util.issued[|old(util.issued)|..]) == UpdateCount(found)
                && (!util.dryRun ==>
                      util.files == if r.value then old(util.files)[target := JoinWith(buffer, "\n")]
                                    else old(util.files))
    {
      buffer := lines;
      ghost var n := |util.issued|;
      var updates := false;
      found, looks, answers := [], [Now()], [];
      var i := 0;
      while i < |lines|
        invariant 0 <= i <= |lines| && |found| == i && |buffer| == |lines|
        invariant buffer[i..] == lines[i..]
        invariant Outcomes(HubOf(), parse, kind, lines[..i], looks, answers, found, buffer[..i])
        invariant looks[0] == old(Now()) && looks[i] == Now()
        invariant updates <==> UpdateCount(found) > 0
        invariant n <= |util.issued| && util.issued[..n] == old(util.issued)
        invariant CommitCount(util.issued[n..]) == UpdateCount(found)
        invariant util.dryRun ==> util.files == old(util.files)
        invariant !util.dryRun ==>
                    util.files == if updates then old(util.files)[target := JoinWith(buffer, "\n")]
                                  else old(util.files)
      {
        ghost var before := util.issued;
        ghost var previous := buffer;
        ghost var current := util.files;
        var version, updated, answer := UpdateLine(buffer, i, target, lines, looks, answers, found);
        if version.Err? {
          return Err(version.error), found, buffer, looks, answers;
        }
        buffer := updated;
        if !util.dryRun {
          FilesStep(old(util.files), target, previous, buffer, updates, version.value != "", current, util.files);
        }
        LogStep(old(util.issued), before, util.issued, found, version.value);
        assert (looks + [Now()])[0] == looks[0];
        found, looks, answers := found + [version.value], looks + [Now()], answers + [answer];
        updates := updates || version.value != "";
        i := i + 1;
      }
      r := Ok(updates);
      assert buffer[..i] == buffer && lines[..i] == lines;
    }

    /** `update_dependencies_file`: read the file into lines and run the per-line loop, writing
        back to the same path. */
    method UpdateDependenciesFile(path: string)
      returns (r: Result<bool>, ghost found: seq<string>, buffer: seq<string>, ghost looks: seq<Lookup>,
               ghost answers: seq<string>)
      modifies util`requestCache, util`fetched, util`issued, util`files, this`knownVersions
      ensures path !in old(util.files) ==> r == Err(FileNotFound(path)) && util.issued == old(util.issued)
      ensures |old(util.issued)| <= |util.issued| && util.issued[..|old(util.issued)|] == old(util.issued)
      ensures util.dryRun ==> util.files == old(util.files)
      ensures r.Ok? ==>
                && path in old(util.files)
                && Outcomes(HubOf(), parse, kind, ReadLines(old(util.files)[path]), looks, answers, found, buffer)
                && (r.value <==> UpdateCount(found) > 0)
                && CommitCount(util.issued[|old(util.issued)|..]) == UpdateCount(found)
                && (!util.dryRun ==>
                      util.files == if r.value then old(util.files)[path := JoinWith(buffer, "\n")]
                                    else old(util.files))
      ensures r.Ok? ==> FileStep(HubOf(), parse, kind, util.dryRun, path, old(FileState(util.files, util.issued, Now())),
                                 FileState(util.files, util.issued, Now()), FileRun(found, buffer, r.value, looks, answers))
    {
      var content := util.ReadFile(path);
      if content.Err? {
        return Err(content.error), [], [], [], [];
      }
      r, found, buffer, looks, answers := UpdateLines(ReadLines(content.value), path);
    }

    /** `get_update_files`: the update files `git ls-files` lists; a failing `git` lists none. */
    method GetUpdateFiles() returns (r: Result<seq<string>>)
      requires !kind.Drone?
      modifies util`issued
      ensures util.issued == old(util.issued) + [LsFilesCommand()]
      ensures var o := util.Run(|old(util.issued)|, LsFilesCommand(), true, false);
              && (o.Ok? ==> r == Ok(UpdateFiles(kind, Split(o.value.stdout, '\n'))))
              && (o.Err? && o.error.CommandFailed? ==> r == Ok([]))
              && (o.Err? && !o.error.CommandFailed? ==> r == Err(o.error))
    {
      var o := util.Execute(LsFilesCommand(), true);
      if o.Err? {
        if o.error.CommandFailed? {
          return Ok([]);
        }
        return Err(o.error);
      }
      r := Ok(UpdateFiles(kind, Split(o.value.stdout, '\n')));
    }

    /** `check_applicable`: some update file is tracked. */
    method CheckApplicable() returns (r: Result<bool>)
      requires !kind.Drone?
      modifies util`issued
      ensures util.issued == old(util.issued) + [LsFilesCommand()]
      ensures var o := util.Run(|old(util.issued)|, LsFilesCommand(), true, false);
              && (o.Ok? ==> r == Ok(UpdateFiles(kind, Split(o.value.stdout, '\n')) != []))
              && (o.Err? && o.error.CommandFailed? ==> r == Ok(false))
              && (o.Err? && !o.error.CommandFailed? ==> r == Err(o.error))
    {
      var files := GetUpdateFiles();
      if files.Err? {
        return Err(files.error);
      }
      r := Ok(files.value != []);
    }

    /** The loop of `update_dependencies`: `update_dependencies_file` on each path in turn,
        stopping at the first error. On success, call `i` on `paths[i]` takes `states[i]` to
        `states[i + 1]`, and the answer is whether any call updated its file. */
    method UpdateEach(paths: seq<string>) returns (r: Result<bool>, ghost states: seq<FileState>, ghost runs: seq<FileRun>)
      modifies util`requestCache, util`fetched, util`issued, util`files, this`knownVersions
      ensures |old(util.issued)| <= |util.issued| && util.issued[..|old(util.issued)|] == old(util.issued)
      ensures util.dryRun ==> util.files == old(util.files)
      ensures r.Ok? ==> (r.value <==> CommitCount(util.issued[|old(util.issued)|..]) > 0)
      ensures r.Ok? ==>
                && FileSteps(HubOf(), parse, kind, util.dryRun, paths, states, runs)
                && states[0] == FileState(old(util.files), old(util.issued), old(Now()))
                && states[|paths|] == FileState(util.files, util.issued, Now())
                && (r.value <==> exists i :: 0 <= i < |runs| && runs[i].updated)
    {
      ghost var start := FileState(util.files, util.issued, Now());
      ghost var n := |start.log|;
      states, runs := [start], [];
      var updates := false;
      var i := 0;
      while i < |paths|
        invariant 0 <= i <= |paths|
        invariant n <= |util.issued| && util.issued[..n] == start.log
        invariant updates <==> CommitCount(util.issued[n..]) > 0
        invariant util.dryRun ==> util.files == old(util.files)
        invariant FileSteps(HubOf(), parse, kind, util.dryRun, paths[..i], states, runs)
        invariant states[0] == start && states[i] == FileState(util.files, util.issued, Now())
        invariant updates <==> exists j :: 0 <= j < |runs| && runs[j].updated
      {
        ghost var before := util.issued;
        var update, found, buffer, looks, answers := UpdateDependenciesFile(paths[i]);
        LogGrew(util.issued, before, n);
        if update.Err? {
          return Err(update.error), states, runs;
        }
        CommitCountAppend(before[n..], util.issued[|before|..]);
        ghost var next, run := FileState(util.files, util.issued, Now()), FileRun(found, buffer, update.value, looks, answers);
        FileStepsSnoc(HubOf(), parse, kind, util.dryRun, paths, i, states, runs, next, run);
        states, runs := states + [next], runs + [run];
        updates := updates || update.value;
        i := i + 1;
      }
      assert paths[..i] == paths;
      r := Ok(updates);
    }

    /** `update_dependencies` of Docker and GithubWorkflow: every update file in turn; the
        answer is whether any of them committed an update. On success, `paths` are the update
        files `git ls-files` listed, and call `i` of `update_dependencies_file` on `paths[i]`
        takes `states[i]` to `states[i + 1]`. */
    method UpdateDependencies()
      returns (r: Result<bool>, ghost paths: seq<string>, ghost states: seq<FileState>, ghost runs: seq<FileRun>)
      requires !kind.Drone?
      modifies util`requestCache, util`fetched, util`issued, util`files, this`knownVersions
      ensures |old(util.issued)| < |util.issued| && util.issued[..|old(util.issued)|] == old(util.issued)
      ensures util.issued[|old(util.issued)|] == LsFilesCommand()
      ensures util.dryRun ==> util.files == old(util.files)
      ensures r.Ok? ==> (r.value <==> CommitCount(util.issued[|old(util.issued)| + 1..]) > 0)
      ensures r.Ok? ==>
                var o := util.Run(|old(util.issued)|, LsFilesCommand(), true, false);
                && (o.Ok? ==> paths == UpdateFiles(kind, Split(o.value.stdout, '\n')))
                && (o.Err? ==> o.error.CommandFailed? && paths == [])
                && FileSteps(HubOf(), parse, kind, util.dryRun, paths, states, runs)
                && states[0] == FileState(old(util.files), old(util.issued) + [LsFilesCommand()], old(Now()))
                && states[|paths|] == FileState(util.files, util.issued, Now())
                && (r.value <==> exists i :: 0 <= i < |runs| && runs[i].updated)
    {
      var files := GetUpdateFiles();
      if files.Err? {
        return Err(files.error), [], [], [];
      }
      ghost var listed := util.issued;
      paths := files.value;
      r, states, runs := UpdateEach(files.value);
      LogGrew(util.issued, listed, |listed| - 1);
    }

    /** Drone's `update_dependencies` over the lines of `.drone.yml`. */
    method UpdateDrone(lines: seq<string>)
      returns (r: Result<bool>, ghost found: seq<string>, buffer: seq<string>, ghost looks: seq<Lookup>,
               ghost answers: seq<string>)
      requires kind.Drone?
      modifies util`requestCache, util`fetched, util`issued, util`files, this`knownVersions
      ensures |old(util.issued)| <= |util.issued| && util.issued[..|old(util.issued)|] == old(util.issued)
      ensures util.dryRun ==> util.files == old(util.files)
      ensures r.Ok? ==>
                && Outcomes(HubOf(), parse, Drone, lines, looks, answers, found, buffer)
                && looks[0] == old(Now()) && looks[|lines|] == Now()
                && (r.value <==> UpdateCount(found) > 0)
                && CommitCount(util.issued[|old(util.issued)|..]) == UpdateCount(found)
                && (!util.dryRun ==>
                      util.files == if r.value then old(util.files)[".drone.yml" := JoinWith(buffer, "\n")]
                                    else old(util.files))
    {
      r, found, buffer, looks, answers := UpdateLines(lines, ".drone.yml");
    }
  }
}
