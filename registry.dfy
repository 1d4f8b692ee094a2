/** The registry side of the image updaters: the Docker Hub and GitHub tag URLs, and how a
    decoded registry reply becomes the list of candidate versions that the running-maximum
    fold walks (req_update/docker.py:88-117, req_update/githubworkflow.py:10-36). */
module Registry {
  import opened Wrappers
  import opened Text
  import opened JsonValue

  // ---------------------------------------------------------------------------------------
  // Docker Hub
  // ---------------------------------------------------------------------------------------

  /** The namespace and repository name of a Docker image: `ns/name` when the dependency has
      exactly one `/`, the official `library` namespace otherwise. */
  function DockerRepository(dependency: string): (r: (string, string))
  {
    if Count(dependency, '/') == 1 then
      SplitCount(dependency, '/');
      var parts := Split(dependency, '/');
      (parts[0], parts[1])
    else ("library", dependency)
  }

  /** With one `/` the dependency is exactly `namespace/name`; otherwise it is looked up whole
      under `library`. */
  lemma DockerRepositoryParts(dependency: string)
    ensures var (ns, name) := DockerRepository(dependency);
            if Count(dependency, '/') == 1 then
              dependency == ns + "/" + name && '/' !in ns && '/' !in name
            else ns == "library" && name == dependency
  {
    if Count(dependency, '/') == 1 {
      SplitCount(dependency, '/');
      var parts := Split(dependency, '/');
      assert JoinWith(parts, "/") == parts[0] + "/" + JoinWith(parts[1..], "/");
      assert parts[1..] == [parts[1]];
    }
  }

  /** The tag listing URL, first 100 tags. */
  function DockerTagsUrl(dependency: string): string {
    var (ns, name) := DockerRepository(dependency);
    "https://hub.docker.com/v2/repositories/" + ns + "/" + name + "/tags?page_size=100"
  }

  /** What the lookup uses when the registry answers with an HTTP error: no tags. */
  const NoResults: Json := Object([("results", Array([]))])

  /** A tag `tag['name']` can be read from. */
  predicate Named(tag: Json) {
    tag.Object? && "name" in Keys(tag.entries)
  }

  /** The position of the first tag without a readable name, or `|tags|` when there is none. */
  function FirstUnnamed(tags: seq<Json>): (k: nat)
    ensures k <= |tags|
    ensures forall j :: 0 <= j < k ==> Named(tags[j])
    ensures k < |tags| ==> !Named(tags[k])
  {
    if tags == [] || !Named(tags[0]) then 0 else 1 + FirstUnnamed(tags[1..])
  }

  /** `[tag['name'] for tag in tags]`: `None` when some tag has no `name` key (the `KeyError`
      the lookup catches); a tag that is not a dictionary raises `TypeError`. The first
      failing tag decides. */
  function TagNames(tags: seq<Json>): (r: Result<Option<seq<Json>>>)
    ensures r.Err? ==> r.error == TypeError
    ensures r.Err? <==> FirstUnnamed(tags) < |tags| && !tags[FirstUnnamed(tags)].Object?
    ensures r == Ok(None) <==> FirstUnnamed(tags) < |tags| && tags[FirstUnnamed(tags)].Object?
    ensures r.Ok? && r.value.Some? ==> |r.value.value| == |tags|
  {
    if tags == [] then Ok(Some([]))
    else
      match Get(tags[0], "name")
      case Err(e) => if e.KeyError? then Ok(None) else Err(e)
      case Ok(name) =>
        match TagNames(tags[1..])
        case Err(e) => Err(e)
        case Ok(None) => Ok(None)
        case Ok(Some(names)) => Ok(Some([name] + names))
  }

  /** The fold hands every name to `compare_versions`, whose regular expressions reject
      anything that is not a string (`TypeError`). */
  function Strings(values: seq<Json>): (r: Result<seq<string>>)
    ensures r.Ok? <==> forall i :: 0 <= i < |values| ==> values[i].Str?
    ensures r.Ok? ==> |r.value| == |values| && forall i :: 0 <= i < |values| ==> r.value[i] == values[i].s
    ensures r.Err? ==> r.error == TypeError
  {
    if values == [] then Ok([])
    else
      var rest := Strings(values[1..]);
      if !values[0].Str? then Err(TypeError)
      else if rest.Err? then
        assert exists i :: 1 <= i < |values| && !values[i].Str? by {
          var j :| 0 <= j < |values[1..]| && !values[1..][j].Str?;
          assert values[j + 1] == values[1..][j];
        }
        Err(TypeError)
      else
        var r := [values[0].s] + rest.value;
        assert forall i :: 1 <= i < |values| ==> values[i] == values[1..][i - 1];
        Ok(r)
  }

  /** The candidate versions in a Docker Hub reply: `data['results']` (a missing key gives
      `None`, the lookup's `''`), iterated, each tag's `name`, each a string. */
  function DockerCandidates(data: Json): Result<Option<seq<string>>> {
    match Get(data, "results")
    case Err(e) => if e.KeyError? then Ok(None) else Err(e)
    case Ok(results) =>
      match Iterate(results)
      case Err(e) => Err(e)
      case Ok(tags) =>
        match TagNames(tags)
        case Err(e) => Err(e)
        case Ok(None) => Ok(None)
        case Ok(Some(names)) =>
          match Strings(names)
          case Err(e) => Err(e)
          case Ok(versions) => Ok(Some(versions))
  }

  /** What the Docker lookup makes of `cached_request`'s answer: an HTTP error counts as an
      empty tag list, other errors propagate. */
  function DockerLookup(answer: Result<Json>): Result<Option<seq<string>>> {
    if answer.Err? && answer.error.HttpError? then DockerCandidates(NoResults)
    else if answer.Err? then Err(answer.error)
    else DockerCandidates(answer.value)
  }

  /** The tags of a reply, each a dictionary whose `name` is the string at the same index. */
  predicate NamedTags(tags: seq<Json>, versions: seq<string>) {
    && |tags| == |versions|
    && forall i :: 0 <= i < |tags| ==> Get(tags[i], "name") == Ok(Str(versions[i]))
  }

  /** When every tag has a `name`, the comprehension yields those names in order. */
  lemma {:induction false} TagNamesAll(tags: seq<Json>, names: seq<Json>)
    requires |names| == |tags| && forall i :: 0 <= i < |tags| ==> Get(tags[i], "name") == Ok(names[i])
    ensures TagNames(tags) == Ok(Some(names))
  {
    if tags != [] {
      assert forall i :: 0 <= i < |tags| - 1 ==> tags[1..][i] == tags[i + 1] && names[1..][i] == names[i + 1];
      TagNamesAll(tags[1..], names[1..]);
      assert names == [names[0]] + names[1..];
    }
  }

  /** Whatever the comprehension yields is each tag's `name`, in order. */
  lemma {:induction false} TagNamesEach(tags: seq<Json>)
    requires TagNames(tags).Ok? && TagNames(tags).value.Some?
    ensures forall i :: 0 <= i < |tags| ==> Get(tags[i], "name") == Ok(TagNames(tags).value.value[i])
  {
    if tags != [] {
      TagNamesEach(tags[1..]);
      var names := TagNames(tags).value.value;
      assert names[1..] == TagNames(tags[1..]).value.value;
      forall i | 1 <= i < |tags| ensures Get(tags[i], "name") == Ok(names[i]) {
        assert tags[i] == tags[1..][i - 1] && names[i] == names[1..][i - 1];
      }
    }
  }

  lemma TagNamesOfNamedTags(tags: seq<Json>, versions: seq<string>)
    ensures (TagNames(tags).Ok? && TagNames(tags).value.Some? &&
             Strings(TagNames(tags).value.value) == Ok(versions)) <==> NamedTags(tags, versions)
  {
    if NamedTags(tags, versions) {
      var names := seq(|versions|, i requires 0 <= i < |versions| => Str(versions[i]));
      TagNamesAll(tags, names);
      assert Strings(names).value == versions;
    }
    if TagNames(tags).Ok? && TagNames(tags).value.Some? && Strings(TagNames(tags).value.value) == Ok(versions) {
      TagNamesEach(tags);
    }
  }

  /** A Docker Hub reply yields candidate versions exactly when its `results` iterate to tags
      that all carry a string `name`; the candidates are those names, in order. */
  lemma DockerCandidatesIff(data: Json, versions: seq<string>)
    ensures DockerCandidates(data) == Ok(Some(versions)) <==>
            Get(data, "results").Ok? && Iterate(Get(data, "results").value).Ok? &&
            NamedTags(Iterate(Get(data, "results").value).value, versions)
  {
    if Get(data, "results").Ok? && Iterate(Get(data, "results").value).Ok? {
      TagNamesOfNamedTags(Iterate(Get(data, "results").value).value, versions);
    }
  }

  /** An HTTP error is an empty tag list. */
  lemma HttpErrorIsNoTags(status: int)
    ensures DockerLookup(Err(HttpError(status))) == Ok(Some([]))
  {
    assert Get(NoResults, "results") == Ok(Array([]));
  }

  // ---------------------------------------------------------------------------------------
  // GitHub
  // ---------------------------------------------------------------------------------------

  /** `GITHUB_API_HEADERS`. */
  const GithubApiHeaders: seq<(string, string)> :=
    [("Accept", "application/vnd.github+json"), ("X-GitHub-Api-Version", "2022-11-28")]

  /** The git tag references of a repository. */
  function WorkflowTagsUrl(dependency: string): string {
    "https://api.github.com/repos/" + dependency + "/git/refs/tags"
  }

  const TagRefPrefix: string := "refs/tags/"

  /** `[tag['ref'].removeprefix('refs/tags/') for tag in refs]`: a tag without `ref` raises
      `KeyError`, one that is not a dictionary `TypeError`, and a `ref` that is not a string
      has no `removeprefix` (`AttributeError`). The first failing tag decides. */
  function RefNames(refs: seq<Json>): (r: Result<seq<string>>)
    ensures r.Ok? ==> |r.value| == |refs|
  {
    if refs == [] then Ok([])
    else
      match Get(refs[0], "ref")
      case Err(e) => Err(e)
      case Ok(ref) =>
        if !ref.Str? then Err(AttributeError)
        else
          match RefNames(refs[1..])
          case Err(e) => Err(e)
          case Ok(names) => Ok([RemovePrefix(ref.s, TagRefPrefix)] + names)
  }

  /** The candidate versions in a GitHub reply: the reply iterated, then `RefNames`. */
  function WorkflowCandidates(reply: Json): Result<seq<string>> {
    match Iterate(reply)
    case Err(e) => Err(e)
    case Ok(refs) => RefNames(refs)
  }

  /** Each candidate is its tag's `ref` with `refs/tags/` removed exactly when present. */
  predicate RefsOf(refs: seq<Json>, names: seq<string>) {
    && |refs| == |names|
    && forall i :: 0 <= i < |refs| ==>
         && Get(refs[i], "ref").Ok? && Get(refs[i], "ref").value.Str?
         && var ref := Get(refs[i], "ref").value.s;
            if StartsWith(ref, TagRefPrefix) then ref == TagRefPrefix + names[i] else names[i] == ref
  }

  lemma {:induction false} RefNamesOfRefs(refs: seq<Json>, names: seq<string>)
    requires RefsOf(refs, names)
    ensures RefNames(refs) == Ok(names)
  {
    if refs != [] {
      assert RefsOf(refs[1..], names[1..]) by {
        forall i | 0 <= i < |refs| - 1
          ensures Get(refs[1..][i], "ref") == Get(refs[i + 1], "ref")
        {
          assert refs[1..][i] == refs[i + 1];
        }
      }
      RefNamesOfRefs(refs[1..], names[1..]);
      var ref := Get(refs[0], "ref").value.s;
      assert RemovePrefix(ref, TagRefPrefix) == names[0];
      assert names == [names[0]] + names[1..];
    }
  }

  lemma {:induction false} RefsOfRefNames(refs: seq<Json>, names: seq<string>)
    requires RefNames(refs) == Ok(names)
    ensures RefsOf(refs, names)
  {
    if refs != [] {
      RefsOfRefNames(refs[1..], names[1..]);
      var ref := Get(refs[0], "ref").value.s;
      assert names[0] == RemovePrefix(ref, TagRefPrefix);
      forall i | 1 <= i < |refs| ensures refs[i] == refs[1..][i - 1] && names[i] == names[1..][i - 1] {
      }
    }
  }

  lemma RefNamesIff(refs: seq<Json>, names: seq<string>)
    ensures RefNames(refs) == Ok(names) <==> RefsOf(refs, names)
  {
    if RefsOf(refs, names) {
      RefNamesOfRefs(refs, names);
    }
    if RefNames(refs) == Ok(names) {
      RefsOfRefNames(refs, names);
    }
  }

  /** A GitHub reply yields candidates exactly when it iterates to tags that all carry a
      string `ref`; the candidates are the refs with the prefix removed. */
  lemma WorkflowCandidatesIff(reply: Json, names: seq<string>)
    ensures WorkflowCandidates(reply) == Ok(names) <==>
            Iterate(reply).Ok? && RefsOf(Iterate(reply).value, names)
  {
    if Iterate(reply).Ok? {
      RefNamesIff(Iterate(reply).value, names);
    }
  }
}
