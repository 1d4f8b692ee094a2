/** The top level of req-update (req_update/req_update.py): check that the repository is clean,
    then visit the updaters in a fixed order, probing those the language filter selects, running
    those that apply on a branch created just before the first one runs, and rolling the branch
    back when none of them changed anything. Updaters are abstract here: each is its class name
    with the answers its `check_applicable` and `update_dependencies` give. */
module Orchestrator {
  import opened Wrappers
  import opened Text

  /** `UPDATERS`, by class name, in the order they run. */
  const UpdaterClasses: seq<string> :=
    ["Docker", "Drone", "GithubWorkflow", "GitSubmodule", "Go", "Node", "Python"]

  /** `updater_names`: the lower-cased class names, in `UPDATERS` order. */
  function UpdaterNames(): (r: seq<string>)
    ensures |r| == |UpdaterClasses|
    ensures forall i :: 0 <= i < |r| ==> r[i] == Lower(UpdaterClasses[i])
  {
    seq(|UpdaterClasses|, i requires 0 <= i < |UpdaterClasses| => Lower(UpdaterClasses[i]))
  }

  /** The names `--language` accepts are distinct, so a filter selects at most one updater. */
  lemma UpdaterNamesDistinct()
    ensures forall i, j :: 0 <= i < j < |UpdaterNames()| ==> UpdaterNames()[i] != UpdaterNames()[j]
  {
    forall i, j | 0 <= i < j < |UpdaterClasses|
      ensures Lower(UpdaterClasses[i]) != Lower(UpdaterClasses[j])
    {
      var a, b := UpdaterClasses[i], UpdaterClasses[j];
      if |a| == |b| {
        assert a == "Docker" && b == "Python";
        assert Lower(a)[0] == 'd';
      } else {
        assert |Lower(a)| != |Lower(b)|;
      }
    }
  }

  /** An updater as the loop sees it: its `language` (the class name) and what its
      `check_applicable` and `update_dependencies` return or raise. */
  datatype UpdaterRun = UpdaterRun(name: string, applicable: Result<bool>, updated: Result<bool>)

  /** What the run does, in order. */
  datatype Event =
    | CheckClean
    | Probe(name: string)
    | Warn(message: string)
    | CreateBranch
    | Update(name: string)
    | Rollback

  function NotApplicableWarning(language: string): string {
    "Selected language " + language + " but language not applicable"
  }

  function NoUpdatesWarning(name: string): string {
    "No " + name + " updates"
  }

  /** The language filter: no filter (an empty or absent `--language`), or the lower-cased
      class name. */
  predicate Selected(filter: string, name: string) {
    filter == "" || filter == Lower(name)
  }

  /** The updaters the filter selects, in order. */
  function Chosen(us: seq<UpdaterRun>, filter: string): (r: seq<UpdaterRun>)
    ensures forall u :: u in r ==> u in us && Selected(filter, u.name)
  {
    if us == [] then []
    else (if Selected(filter, us[0].name) then [us[0]] else []) + Chosen(us[1..], filter)
  }

  /** The updaters that run: selected and applicable, in order. */
  function Ran(us: seq<UpdaterRun>, filter: string): (r: seq<UpdaterRun>)
    ensures forall u :: u in r ==> u in us && Selected(filter, u.name) && u.applicable == Ok(true)
  {
    if us == [] then []
    else (if Selected(filter, us[0].name) && us[0].applicable == Ok(true) then [us[0]] else []) + Ran(us[1..], filter)
  }

  function Names(us: seq<UpdaterRun>): (r: seq<string>)
    ensures |r| == |us|
    ensures forall i :: 0 <= i < |us| ==> r[i] == us[i].name
  {
    if us == [] then [] else [us[0].name] + Names(us[1..])
  }

  /** Some updater that ran reported changes. */
  predicate AnyUpdated(us: seq<UpdaterRun>) {
    exists i :: 0 <= i < |us| && us[i].updated == Ok(true)
  }

  lemma AnyUpdatedCons(u: UpdaterRun, rest: seq<UpdaterRun>)
    ensures AnyUpdated([u] + rest) <==> u.updated == Ok(true) || AnyUpdated(rest)
  {
    var us := [u] + rest;
    if AnyUpdated(rest) {
      var i :| 0 <= i < |rest| && rest[i].updated == Ok(true);
      assert us[i + 1] == rest[i];
    }
    if AnyUpdated(us) {
      var i :| 0 <= i < |us| && us[i].updated == Ok(true);
      if i > 0 {
        assert rest[i - 1] == us[i];
      }
    }
    if u.updated == Ok(true) {
      assert us[0] == u;
    }
  }

  /** The names of the updaters probed, in order. */
  function Probes(events: seq<Event>): seq<string> {
    if events == [] then [] else (if events[0].Probe? then [events[0].name] else []) + Probes(events[1..])
  }

  /** The names of the updaters run, in order. */
  function Updates(events: seq<Event>): seq<string> {
    if events == [] then [] else (if events[0].Update? then [events[0].name] else []) + Updates(events[1..])
  }

  lemma {:induction false} ProbesAppend(a: seq<Event>, b: seq<Event>)
    ensures Probes(a + b) == Probes(a) + Probes(b)
  {
    if a != [] {
      assert (a + b)[0] == a[0] && (a + b)[1..] == a[1..] + b;
      ProbesAppend(a[1..], b);
      assert Probes(a + b) == Probes([a[0]]) + Probes(a[1..] + b);
    } else {
      assert a + b == b;
    }
  }

  lemma {:induction false} UpdatesAppend(a: seq<Event>, b: seq<Event>)
    ensures Updates(a + b) == Updates(a) + Updates(b)
  {
    if a != [] {
      assert (a + b)[0] == a[0] && (a + b)[1..] == a[1..] + b;
      UpdatesAppend(a[1..], b);
      assert Updates(a + b) == Updates([a[0]]) + Updates(a[1..] + b);
    } else {
      assert a + b == b;
    }
  }

  /** The run's log grows by the cleanliness check, the loop's events and the rollback. */
  lemma AppendRegroup(a: seq<Event>, b: seq<Event>, c: seq<Event>, d: seq<Event>)
    ensures a + (b + c + d) == a + b + c + d
    ensures d == [] ==> a + (b + c + d) == a + b + c
    ensures b == [] ==> a + b == a
  {
  }

  /** Events that probe and run nothing around `mid` leave its names as they are. */
  lemma NamesAround(pre: seq<Event>, mid: seq<Event>, post: seq<Event>)
    requires Probes(pre) == [] && Updates(pre) == [] && Probes(post) == [] && Updates(post) == []
    ensures Probes(pre + mid + post) == Probes(mid)
    ensures Updates(pre + mid + post) == Updates(mid)
  {
    ProbesAppend(pre, mid);
    ProbesAppend(pre + mid, post);
    UpdatesAppend(pre, mid);
    UpdatesAppend(pre + mid, post);
    assert [] + Probes(mid) + [] == Probes(mid);
    assert [] + Updates(mid) + [] == Updates(mid);
  }

  /** Events that are neither probes nor runs name nothing. */
  lemma SilentNames(events: seq<Event>)
    requires |events| <= 1 && forall e :: e in events ==> !e.Probe? && !e.Update?
    ensures Probes(events) == [] && Updates(events) == []
  {
    if events != [] {
      assert events[1..] == [];
    }
  }

  lemma PrefixAppend(p: seq<string>, a: seq<string>, b: seq<string>)
    requires a <= b
    ensures p + a <= p + b
  {
    assert (p + b)[..|p + a|] == p + a;
  }

  /** The loop over the updaters, from a state where a branch may already exist and changes may
      already have been reported: its events and either the final flags `(branch_created,
      updates_made)` or the exception that ended it. */
  datatype Scanned = Scanned(events: seq<Event>, outcome: Result<(bool, bool)>)

  /** One pass of the loop body: the events, and either the exception that ends the loop or
      the flags for the next pass. */
  datatype StepOut =
    | Stop(events: seq<Event>, error: Error)
    | Next(events: seq<Event>, created: bool, made: bool)

  /** The events of one updater that runs: the branch comes first if there is none yet. */
  function Opened(u: UpdaterRun, created: bool): seq<Event> {
    [Probe(u.name)] + (if created then [] else [CreateBranch]) + [Update(u.name)]
  }

  /** The loop body for updater `u`. */
  function Step(u: UpdaterRun, filter: string, created: bool, made: bool, branch: Result<()>): StepOut {
    if !Selected(filter, u.name) then Next([], created, made)
    else match u.applicable
      case Err(e) => Stop([Probe(u.name)], e)
      case Ok(false) =>
        Next([Probe(u.name)] + (if filter != "" then [Warn(NotApplicableWarning(filter))] else []), created, made)
      case Ok(true) =>
        if !created && branch.Err? then Stop([Probe(u.name), CreateBranch], branch.error)
        else match u.updated
          case Err(e) => Stop(Opened(u, created), e)
          case Ok(x) => Next(Opened(u, created) + (if x then [] else [Warn(NoUpdatesWarning(u.name))]), true, made || x)
  }

  function Scan(us: seq<UpdaterRun>, filter: string, created: bool, made: bool, branch: Result<()>): Scanned
  {
    if us == [] then Scanned([], Ok((created, made)))
    else match Step(us[0], filter, created, made, branch)
      case Stop(events, e) => Scanned(events, Err(e))
      case Next(events, c, m) =>
        var rest := Scan(us[1..], filter, c, m, branch);
        Scanned(events + rest.events, rest.outcome)
  }

  /** The updater a pass runs: selected and applicable. */
  predicate Runs(u: UpdaterRun, filter: string) {
    Selected(filter, u.name) && u.applicable == Ok(true)
  }

  /** Every updater recorded as run comes after the branch was created (or one existed). */
  predicate BranchFirst(events: seq<Event>, created: bool) {
    forall i :: 0 <= i < |events| && events[i].Update? ==> created || CreateBranch in events[..i]
  }

  lemma BranchFirstAppend(a: seq<Event>, b: seq<Event>, created: bool, mid: bool)
    requires BranchFirst(a, created) && BranchFirst(b, mid)
    requires mid ==> created || CreateBranch in a
    ensures BranchFirst(a + b, created)
  {
    forall i | 0 <= i < |a + b| && (a + b)[i].Update?
      ensures created || CreateBranch in (a + b)[..i]
    {
      if i < |a| {
        assert (a + b)[..i] == a[..i];
      } else {
        assert (a + b)[i] == b[i - |a|];
        assert (a + b)[..i] == a + b[..i - |a|];
      }
    }
  }

  lemma {:induction false} ProbesNone(events: seq<Event>)
    requires forall e :: e in events ==> !e.Probe?
    ensures Probes(events) == []
  {
    if events != [] {
      assert events[0] in events;
      ProbesNone(events[1..]);
    }
  }

  /** A pass probes `u` iff the filter selects it. */
  lemma StepProbes(u: UpdaterRun, filter: string, created: bool, made: bool, branch: Result<()>)
    ensures Probes(Step(u, filter, created, made, branch).events) == if Selected(filter, u.name) then [u.name] else []
  {
    var events := Step(u, filter, created, made, branch).events;
    if Selected(filter, u.name) {
      assert events[0] == Probe(u.name);
      assert forall e :: e in events[1..] ==> !e.Probe?;
      ProbesNone(events[1..]);
    }
  }

  /** A pass runs `u` iff it is selected and applicable and the branch could be created. */
  lemma StepUpdates(u: UpdaterRun, filter: string, created: bool, made: bool, branch: Result<()>)
    ensures Updates(Step(u, filter, created, made, branch).events) ==
              if Runs(u, filter) && (created || branch.Ok?) then [u.name] else []
  {
    var events := Step(u, filter, created, made, branch).events;
    if Runs(u, filter) && (created || branch.Ok?) {
      var rest := events[|Opened(u, created)|..];
      assert events == Opened(u, created) + rest;
      UpdatesAppend(Opened(u, created), rest);
      assert Updates(rest) == [];
      if !created {
        assert Opened(u, created)[1..][1..] == [Update(u.name)];
      }
    } else if events != [] {
      assert Updates(events[1..]) == [];
    }
  }

  /** A pass that lets the loop go on: the updater answered without raising, a branch exists
      once it ran, and changes are reported once it reported them. */
  lemma StepNext(u: UpdaterRun, filter: string, created: bool, made: bool, branch: Result<()>)
    requires Step(u, filter, created, made, branch).Next?
    ensures Selected(filter, u.name) ==> u.applicable.Ok?
    ensures Runs(u, filter) ==> u.updated.Ok? && (created || branch.Ok?)
    ensures Step(u, filter, created, made, branch).created == (created || Runs(u, filter))
    ensures Step(u, filter, created, made, branch).made == (made || (Runs(u, filter) && u.updated == Ok(true)))
  {
  }

  /** A pass creates the branch once for an updater it runs when there is none, else never;
      and it creates it before running the updater. */
  lemma StepBranch(u: UpdaterRun, filter: string, created: bool, made: bool, branch: Result<()>)
    ensures multiset(Step(u, filter, created, made, branch).events)[CreateBranch] ==
              if Runs(u, filter) && !created then 1 else 0
    ensures BranchFirst(Step(u, filter, created, made, branch).events, created)
  {
    var events := Step(u, filter, created, made, branch).events;
    if Runs(u, filter) && !created && branch.Ok? {
      assert events[1] == CreateBranch;
      forall i | 0 <= i < |events| && events[i].Update?
        ensures CreateBranch in events[..i]
      {
        assert events[..i][1] == CreateBranch;
      }
    }
  }

  lemma NamesAppend(a: seq<UpdaterRun>, b: seq<UpdaterRun>)
    ensures Names(a + b) == Names(a) + Names(b)
  {
  }

  /** When the loop completes, a branch exists iff one existed or some updater ran, and
      changes were reported iff they had been or some updater that ran reported them. */
  lemma {:induction false} ScanFlags(us: seq<UpdaterRun>, filter: string, created: bool, made: bool, branch: Result<()>)
    requires Scan(us, filter, created, made, branch).outcome.Ok?
    ensures Scan(us, filter, created, made, branch).outcome.value.0 == (created || Ran(us, filter) != [])
    ensures Scan(us, filter, created, made, branch).outcome.value.1 == (made || AnyUpdated(Ran(us, filter)))
  {
    if us != [] {
      var u := us[0];
      var o := Step(u, filter, created, made, branch);
      StepNext(u, filter, created, made, branch);
      ScanFlags(us[1..], filter, o.created, o.made, branch);
      if Runs(u, filter) {
        assert Ran(us, filter) == [u] + Ran(us[1..], filter);
        AnyUpdatedCons(u, Ran(us[1..], filter));
      } else {
        assert Ran(us, filter) == Ran(us[1..], filter);
      }
    }
  }

  /** When the loop completes, the updaters probed and run are exactly those selected, and
      those selected and applicable, in order. */
  lemma {:induction false} ScanNames(us: seq<UpdaterRun>, filter: string, created: bool, made: bool, branch: Result<()>)
    requires Scan(us, filter, created, made, branch).outcome.Ok?
    ensures Updates(Scan(us, filter, created, made, branch).events) == Names(Ran(us, filter))
    ensures Probes(Scan(us, filter, created, made, branch).events) == Names(Chosen(us, filter))
  {
    if us != [] {
      var u := us[0];
      var o := Step(u, filter, created, made, branch);
      var rest := Scan(us[1..], filter, o.created, o.made, branch);
      StepNext(u, filter, created, made, branch);
      StepProbes(u, filter, created, made, branch);
      StepUpdates(u, filter, created, made, branch);
      ScanNames(us[1..], filter, o.created, o.made, branch);
      UpdatesAppend(o.events, rest.events);
      ProbesAppend(o.events, rest.events);
      var here := if Runs(u, filter) then [u] else [];
      assert Ran(us, filter) == here + Ran(us[1..], filter);
      NamesAppend(here, Ran(us[1..], filter));
      var picked := if Selected(filter, u.name) then [u] else [];
      assert Chosen(us, filter) == picked + Chosen(us[1..], filter);
      NamesAppend(picked, Chosen(us[1..], filter));
    }
  }

  /** The names selected from a non-empty list: its head's, if selected, then the rest's. */
  lemma ChosenNamesCons(us: seq<UpdaterRun>, filter: string)
    requires us != []
    ensures Names(Chosen(us, filter)) == (if Selected(filter, us[0].name) then [us[0].name] else []) + Names(Chosen(us[1..], filter))
  {
    NamesAppend(if Selected(filter, us[0].name) then [us[0]] else [], Chosen(us[1..], filter));
  }

  /** The names run from a non-empty list: its head's, if it runs, then the rest's. */
  lemma RanNamesCons(us: seq<UpdaterRun>, filter: string)
    requires us != []
    ensures Names(Ran(us, filter)) == (if Runs(us[0], filter) then [us[0].name] else []) + Names(Ran(us[1..], filter))
  {
    NamesAppend(if Runs(us[0], filter) then [us[0]] else [], Ran(us[1..], filter));
  }

  lemma PrefixOfAppend(a: seq<string>, b: seq<string>)
    ensures a <= a + b
  {
    assert (a + b)[..|a|] == a;
  }

  /** Whether or not the loop completes, it probes only selected updaters, in order: what it
      probed is a prefix of what a complete loop probes. */
  lemma {:induction false} ScanProbesPrefix(us: seq<UpdaterRun>, filter: string, created: bool, made: bool, branch: Result<()>)
    ensures Probes(Scan(us, filter, created, made, branch).events) <= Names(Chosen(us, filter))
  {
    if us != [] {
      var u := us[0];
      var o := Step(u, filter, created, made, branch);
      var head := if Selected(filter, u.name) then [u.name] else [];
      StepProbes(u, filter, created, made, branch);
      ChosenNamesCons(us, filter);
      if o.Next? {
        var rest := Scan(us[1..], filter, o.created, o.made, branch);
        ScanProbesPrefix(us[1..], filter, o.created, o.made, branch);
        ProbesAppend(o.events, rest.events);
        PrefixAppend(head, Probes(rest.events), Names(Chosen(us[1..], filter)));
      } else {
        PrefixOfAppend(head, Names(Chosen(us[1..], filter)));
      }
    }
  }

  /** Whether or not the loop completes, it runs only selected, applicable updaters, in order:
      what it ran is a prefix of what a complete loop runs. */
  lemma {:induction false} ScanUpdatesPrefix(us: seq<UpdaterRun>, filter: string, created: bool, made: bool, branch: Result<()>)
    ensures Updates(Scan(us, filter, created, made, branch).events) <= Names(Ran(us, filter))
  {
    if us != [] {
      var u := us[0];
      var o := Step(u, filter, created, made, branch);
      StepUpdates(u, filter, created, made, branch);
      RanNamesCons(us, filter);
      if o.Next? {
        var head := if Runs(u, filter) then [u.name] else [];
        var rest := Scan(us[1..], filter, o.created, o.made, branch);
        StepNext(u, filter, created, made, branch);
        ScanUpdatesPrefix(us[1..], filter, o.created, o.made, branch);
        UpdatesAppend(o.events, rest.events);
        PrefixAppend(head, Updates(rest.events), Names(Ran(us[1..], filter)));
      } else {
        var head := Updates(o.events);
        PrefixOfAppend(head, Names(Ran(us[1..], filter)));
        assert head <= Names(Ran(us, filter)) by {
          if head != [] {
            assert Runs(u, filter);
          }
        }
      }
    }
  }

  /** A pass neither checks cleanliness nor rolls back. */
  lemma StepQuiet(u: UpdaterRun, filter: string, created: bool, made: bool, branch: Result<()>)
    ensures Rollback !in Step(u, filter, created, made, branch).events
    ensures CheckClean !in Step(u, filter, created, made, branch).events
  {
  }

  /** The loop neither checks cleanliness nor rolls back. */
  lemma {:induction false} ScanQuiet(us: seq<UpdaterRun>, filter: string, created: bool, made: bool, branch: Result<()>)
    ensures Rollback !in Scan(us, filter, created, made, branch).events
    ensures CheckClean !in Scan(us, filter, created, made, branch).events
  {
    if us != [] {
      var o := Step(us[0], filter, created, made, branch);
      StepQuiet(us[0], filter, created, made, branch);
      if o.Next? {
        ScanQuiet(us[1..], filter, o.created, o.made, branch);
      }
    }
  }

  /** The loop creates the branch at most once, never when one exists, and only when some
      updater runs. */
  lemma {:induction false} ScanBranchOnce(us: seq<UpdaterRun>, filter: string, created: bool, made: bool, branch: Result<()>)
    ensures multiset(Scan(us, filter, created, made, branch).events)[CreateBranch] <= (if created then 0 else 1)
    ensures CreateBranch in Scan(us, filter, created, made, branch).events ==> Ran(us, filter) != []
  {
    if us != [] {
      var u := us[0];
      var o := Step(u, filter, created, made, branch);
      StepBranch(u, filter, created, made, branch);
      if Runs(u, filter) {
        assert Ran(us, filter) == [u] + Ran(us[1..], filter);
      } else {
        assert Ran(us, filter) == Ran(us[1..], filter);
      }
      if o.Next? {
        StepNext(u, filter, created, made, branch);
        var rest := Scan(us[1..], filter, o.created, o.made, branch).events;
        ScanBranchOnce(us[1..], filter, o.created, o.made, branch);
        assert multiset(o.events + rest) == multiset(o.events) + multiset(rest);
      }
    }
  }

  /** The loop runs no updater before the branch exists. */
  lemma {:induction false} ScanBranchFirst(us: seq<UpdaterRun>, filter: string, created: bool, made: bool, branch: Result<()>)
    ensures BranchFirst(Scan(us, filter, created, made, branch).events, created)
  {
    if us != [] {
      var u := us[0];
      var o := Step(u, filter, created, made, branch);
      StepBranch(u, filter, created, made, branch);
      if o.Next? {
        StepNext(u, filter, created, made, branch);
        ScanBranchFirst(us[1..], filter, o.created, o.made, branch);
        BranchFirstAppend(o.events, Scan(us[1..], filter, o.created, o.made, branch).events, created, o.created);
      }
    }
  }

  /** A whole run: its events, and what `main` returns or raises. */
  datatype Trace = Trace(events: seq<Event>, result: Result<bool>)

  function CleanCheck(ignoreCleanliness: bool): seq<Event> {
    if ignoreCleanliness then [] else [CheckClean]
  }

  /** The rollback after a completed loop that created a branch and reported no changes. */
  function Closing(s: Scanned): seq<Event> {
    if s.outcome.Ok? && s.outcome.value.0 && !s.outcome.value.1 then [Rollback] else []
  }

  /** `ReqUpdate.main` after the arguments are parsed. */
  function MainTrace(us: seq<UpdaterRun>, filter: string, ignoreCleanliness: bool, clean: Result<bool>,
                     branch: Result<()>, rollback: Result<()>): Trace
  {
    var pre := CleanCheck(ignoreCleanliness);
    if !ignoreCleanliness && clean.Err? then Trace(pre, Err(clean.error))
    else if !ignoreCleanliness && !clean.value then Trace(pre, Err(RuntimeError("Repository is not clean")))
    else
      var s := Scan(us, filter, false, false, branch);
      Trace(pre + s.events + Closing(s),
            match s.outcome
            case Err(e) => Err(e)
            case Ok((created, made)) => if Closing(s) != [] && rollback.Err? then Err(rollback.error) else Ok(made))
  }

  /** A dirty repository stops the run before any updater is probed, unless cleanliness is
      ignored. */
  lemma MainDirty(us: seq<UpdaterRun>, filter: string, clean: Result<bool>, branch: Result<()>, rollback: Result<()>)
    requires clean == Ok(false)
    ensures MainTrace(us, filter, false, clean, branch, rollback) == Trace([CheckClean], Err(RuntimeError("Repository is not clean")))
    ensures Probes(MainTrace(us, filter, false, clean, branch, rollback).events) == []
  {
    assert Probes([CheckClean]) == Probes([]);
  }

  /** `main` returns whether some updater that ran reported changes. */
  lemma MainResult(us: seq<UpdaterRun>, filter: string, ignoreCleanliness: bool, clean: Result<bool>,
                   branch: Result<()>, rollback: Result<()>)
    requires MainTrace(us, filter, ignoreCleanliness, clean, branch, rollback).result.Ok?
    ensures MainTrace(us, filter, ignoreCleanliness, clean, branch, rollback).result.value == AnyUpdated(Ran(us, filter))
  {
    ScanFlags(us, filter, false, false, branch);
  }

  /** The branch is rolled back iff the loop completed after creating it (some updater ran)
      and no updater reported changes. */
  lemma MainRollback(us: seq<UpdaterRun>, filter: string, ignoreCleanliness: bool, clean: Result<bool>,
                     branch: Result<()>, rollback: Result<()>)
    ensures Rollback in MainTrace(us, filter, ignoreCleanliness, clean, branch, rollback).events <==>
              && (ignoreCleanliness || clean == Ok(true))
              && Scan(us, filter, false, false, branch).outcome.Ok?
              && Ran(us, filter) != [] && !AnyUpdated(Ran(us, filter))
  {
    var s := Scan(us, filter, false, false, branch);
    ScanQuiet(us, filter, false, false, branch);
    if s.outcome.Ok? {
      ScanFlags(us, filter, false, false, branch);
    }
  }

  /** The events of a run that gets past the cleanliness check. */
  lemma MainEvents(us: seq<UpdaterRun>, filter: string, ignoreCleanliness: bool, clean: Result<bool>,
                   branch: Result<()>, rollback: Result<()>)
    ensures var t := MainTrace(us, filter, ignoreCleanliness, clean, branch, rollback);
            var s := Scan(us, filter, false, false, branch);
            if ignoreCleanliness || clean == Ok(true) then t.events == CleanCheck(ignoreCleanliness) + s.events + Closing(s)
            else t.events == [CheckClean] && t.result.Err?
  {
  }

  /** The branch is created at most once, only when some updater runs, and before every
      updater that runs. */
  lemma MainBranch(us: seq<UpdaterRun>, filter: string, ignoreCleanliness: bool, clean: Result<bool>,
                   branch: Result<()>, rollback: Result<()>)
    ensures multiset(MainTrace(us, filter, ignoreCleanliness, clean, branch, rollback).events)[CreateBranch] <= 1
    ensures CreateBranch in MainTrace(us, filter, ignoreCleanliness, clean, branch, rollback).events ==> Ran(us, filter) != []
    ensures BranchFirst(MainTrace(us, filter, ignoreCleanliness, clean, branch, rollback).events, false)
  {
    var t := MainTrace(us, filter, ignoreCleanliness, clean, branch, rollback);
    MainEvents(us, filter, ignoreCleanliness, clean, branch, rollback);
    if ignoreCleanliness || clean == Ok(true) {
      var s := Scan(us, filter, false, false, branch);
      var pre := CleanCheck(ignoreCleanliness);
      ScanBranchOnce(us, filter, false, false, branch);
      ScanBranchFirst(us, filter, false, false, branch);
      assert multiset(t.events) == multiset(pre) + multiset(s.events) + multiset(Closing(s));
      BranchFirstAppend(pre, s.events, false, false);
      BranchFirstAppend(pre + s.events, Closing(s), false, false);
    } else {
      assert t.events[0].CheckClean?;
    }
  }

  /** Only selected updaters are probed and only applicable ones run, in `UPDATERS` order; when
      the run returns, every selected one was probed and every applicable one ran. */
  lemma MainNames(us: seq<UpdaterRun>, filter: string, ignoreCleanliness: bool, clean: Result<bool>,
                  branch: Result<()>, rollback: Result<()>)
    ensures Probes(MainTrace(us, filter, ignoreCleanliness, clean, branch, rollback).events) <= Names(Chosen(us, filter))
    ensures Updates(MainTrace(us, filter, ignoreCleanliness, clean, branch, rollback).events) <= Names(Ran(us, filter))
    ensures MainTrace(us, filter, ignoreCleanliness, clean, branch, rollback).result.Ok? ==>
              && Probes(MainTrace(us, filter, ignoreCleanliness, clean, branch, rollback).events) == Names(Chosen(us, filter))
              && Updates(MainTrace(us, filter, ignoreCleanliness, clean, branch, rollback).events) == Names(Ran(us, filter))
  {
    var t := MainTrace(us, filter, ignoreCleanliness, clean, branch, rollback);
    MainEvents(us, filter, ignoreCleanliness, clean, branch, rollback);
    if ignoreCleanliness || clean == Ok(true) {
      var s := Scan(us, filter, false, false, branch);
      var pre := CleanCheck(ignoreCleanliness);
      ScanProbesPrefix(us, filter, false, false, branch);
      ScanUpdatesPrefix(us, filter, false, false, branch);
      SilentNames(CleanCheck(ignoreCleanliness));
      SilentNames(Closing(s));
      NamesAround(pre, s.events, Closing(s));
      if t.result.Ok? {
        ScanNames(us, filter, false, false, branch);
      }
    } else {
      assert t.events == [CheckClean] && t.events[1..] == [];
    }
  }

  /** `ReqUpdate`: the updaters in `UPDATERS` order, the options `get_args` sets, and the log of
      what the run did. */
  class ReqUpdate {
    var updaters: seq<UpdaterRun>
    const language: string
    const ignoreCleanliness: bool
    var events: seq<Event>

    /** `__init__`: one updater per entry of `UPDATERS`, given the answers each gives. */
    constructor(applicable: seq<Result<bool>>, updated: seq<Result<bool>>, language: string, ignoreCleanliness: bool)
      requires |applicable| == |updated| == |UpdaterClasses|
      ensures Names(updaters) == UpdaterClasses
      ensures forall i :: 0 <= i < |updaters| ==> updaters[i].applicable == applicable[i] && updaters[i].updated == updated[i]
      ensures this.language == language && this.ignoreCleanliness == ignoreCleanliness && events == []
    {
      this.language := language;
      this.ignoreCleanliness := ignoreCleanliness;
      events := [];
      updaters := [];
      new;
      var i := 0;
      while i < |UpdaterClasses|
        invariant 0 <= i <= |UpdaterClasses| && |updaters| == i && events == []
        invariant forall k :: 0 <= k < i ==> updaters[k] == UpdaterRun(UpdaterClasses[k], applicable[k], updated[k])
      {
        updaters := updaters + [UpdaterRun(UpdaterClasses[i], applicable[i], updated[i])];
        i := i + 1;
      }
      assert Names(updaters) == UpdaterClasses;
    }

    /** One pass of the loop in `main`: skip an updater the filter does not select, probe it,
        warn when a selected language does not apply, create the branch before the first
        updater that runs, run it, and warn when it reports no changes. */
    method Visit(u: UpdaterRun, created: bool, made: bool, branch: Result<()>) returns (o: StepOut)
      modifies this`events
      ensures o == Step(u, language, created, made, branch)
      ensures events == old(events) + o.events
    {
      if language != "" && language != Lower(u.name) {
        return Next([], created, made);
      }
      var passed := [Probe(u.name)];
      if u.applicable.Err? {
        events := events + passed;
        return Stop(passed, u.applicable.error);
      }
      if !u.applicable.value {
        if language != "" {
          passed := passed + [Warn(NotApplicableWarning(language))];
        }
        events := events + passed;
        return Next(passed, created, made);
      }
      if !created {
        passed := passed + [CreateBranch];
        if branch.Err? {
          events := events + passed;
          return Stop(passed, branch.error);
        }
      }
      passed := passed + [Update(u.name)];
      if u.updated.Err? {
        events := events + passed;
        return Stop(passed, u.updated.error);
      }
      if !u.updated.value {
        passed := passed + [Warn(NoUpdatesWarning(u.name))];
      }
      events := events + passed;
      o := Next(passed, true, made || u.updated.value);
    }

    /** The loop in `main`, from no branch and no changes: its events, and the final
        `(branch_created, updates_made)` or the exception that ended it. */
    method Loop(branch: Result<()>) returns (outcome: Result<(bool, bool)>)
      modifies this`events
      ensures events == old(events) + Scan(updaters, language, false, false, branch).events
      ensures outcome == Scan(updaters, language, false, false, branch).outcome
    {
      ghost var s := Scan(updaters, language, false, false, branch);
      var remaining := updaters;
      var branchCreated := false;
      var updatesMade := false;
      while remaining != []
        invariant events + Scan(remaining, language, branchCreated, updatesMade, branch).events == old(events) + s.events
        invariant Scan(remaining, language, branchCreated, updatesMade, branch).outcome == s.outcome
      {
        ghost var before := events;
        var o := Visit(remaining[0], branchCreated, updatesMade, branch);
        if o.Stop? {
          return Err(o.error);
        }
        AppendAssoc(before, o.events, Scan(remaining[1..], language, o.created, o.made, branch).events);
        branchCreated, updatesMade := o.created, o.made;
        remaining := remaining[1..];
      }
      outcome := Ok((branchCreated, updatesMade));
    }

    /** `main`, given what the cleanliness check, `create_branch` and `rollback_branch` return or
        raise. */
    method Run(clean: Result<bool>, branch: Result<()>, rollback: Result<()>) returns (r: Result<bool>)
      modifies this`events
      ensures events == old(events) + MainTrace(updaters, language, ignoreCleanliness, clean, branch, rollback).events
      ensures r == MainTrace(updaters, language, ignoreCleanliness, clean, branch, rollback).result
    {
      MainEvents(updaters, language, ignoreCleanliness, clean, branch, rollback);
      ghost var s := Scan(updaters, language, false, false, branch);
      ghost var start := events + CleanCheck(ignoreCleanliness);
      AppendRegroup(old(events), CleanCheck(ignoreCleanliness), s.events, Closing(s));
      if !ignoreCleanliness {
        events := events + [CheckClean];
        if clean.Err? {
          return Err(clean.error);
        }
        if !clean.value {
          return Err(RuntimeError("Repository is not clean"));
        }
      }
      assert events == start;
      var outcome := Loop(branch);
      if outcome.Err? {
        return Err(outcome.error);
      }
      var (branchCreated, updatesMade) := outcome.value;
      if branchCreated && !updatesMade {
        events := events + [Rollback];
        if rollback.Err? {
          return Err(rollback.error);
        }
      }
      r := Ok(updatesMade);
    }
  }
}
