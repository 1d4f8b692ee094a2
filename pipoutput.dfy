/** What req_update/python.py reads from pip: the major version in `pip --version`, and the
    outdated packages of `pip list --outdated --format json`, sorted by name. */
module PipOutput {
  import opened Wrappers
  import opened Text
  import opened JsonValue
  import opened Shell
  import Versions


  function PipVersionCommand(): Invocation { Invocation(["pip", "--version"], None) }

  /** `int(stdout.split(' ')[1].split('.')[0])`; `None` for the `IndexError` or `ValueError`. */
  function PipMajor(stdout: string): Option<int> {
    var words := Split(stdout, ' ');
    if |words| < 2 then None else Versions.PyInt(Split(words[1], '.')[0])
  }

  /** pip's banner `pip X.Y... from ...` yields `X`. */
  lemma PipMajorReads(name: string, major: string, rest: string, tail: string)
    requires ' ' !in name && ' ' !in rest && IsDigits(major)
    ensures PipMajor(name + " " + major + "." + rest + " " + tail) == Some(DigitsValue(major) as int)
  {
    assert ' ' !in major by { assert forall k :: 0 <= k < |major| ==> IsDigit(major[k]); }
    assert '.' !in major by { assert forall k :: 0 <= k < |major| ==> IsDigit(major[k]); }
    var word := major + "." + rest;
    var after := word + " " + tail;
    var s := name + " " + major + "." + rest + " " + tail;
    assert s == name + [' '] + after;
    SplitAtFirst(name, after, ' ');
    assert after == word + [' '] + tail;
    assert ' ' !in word;
    SplitAtFirst(word, tail, ' ');
    assert Split(s, ' ')[1] == word;
    assert word == major + ['.'] + rest;
    SplitAtFirst(major, rest, '.');
    Versions.PyIntOfDigits(major);
  }

  // ---------------------------------------------------------------------------------------
  // pip list --outdated
  // ---------------------------------------------------------------------------------------

  function PipListCommand(): Invocation { Invocation(["pip", "list", "--outdated", "--format", "json"], None) }

  /** Python's `<` on strings: the first differing code point decides, a proper prefix is less. */
  predicate Below(a: string, b: string)
    decreases |a|
  {
    if a == [] then b != []
    else b != [] && (a[0] < b[0] || (a[0] == b[0] && Below(a[1..], b[1..])))
  }

  lemma {:induction false} BelowIrreflexive(a: string)
    ensures !Below(a, a)
    decreases |a|
  {
    if a != [] {
      BelowIrreflexive(a[1..]);
    }
  }

  lemma {:induction false} BelowTransitive(a: string, b: string, c: string)
    ensures Below(a, b) && Below(b, c) ==> Below(a, c)
    decreases |a|
  {
    if a != [] && b != [] && c != [] && a[0] == b[0] && b[0] == c[0] {
      BelowTransitive(a[1..], b[1..], c[1..]);
    }
  }

  lemma {:induction false} BelowTotal(a: string, b: string)
    ensures a == b || Below(a, b) || Below(b, a)
    decreases |a|
  {
    if a != [] && b != [] && a[0] == b[0] {
      BelowTotal(a[1..], b[1..]);
      if a[1..] == b[1..] {
        assert a == [a[0]] + a[1..] && b == [b[0]] + b[1..];
      }
    }
  }

  /** An outdated package: its name and its entry from pip's output. */
  type Package = (string, Json)

  predicate SortedByName(ps: seq<Package>) {
    forall i, j :: 0 <= i < j < |ps| ==> !Below(ps[j].0, ps[i].0)
  }

  /** The sort keys `p['name']`, computed for every entry in order: the first entry that is not a
      dictionary with a string name raises. */
  function Keyed(items: seq<Json>): (r: Result<seq<Package>>)
    ensures r.Ok? ==> |r.value| == |items| &&
                      forall i :: 0 <= i < |items| ==> r.value[i].1 == items[i] && Get(items[i], "name") == Ok(Str(r.value[i].0))
    ensures r.Err? <==> exists i :: 0 <= i < |items| && !(Get(items[i], "name").Ok? && Get(items[i], "name").value.Str?)
  {
    if items == [] then Ok([])
    else
      var n := Get(items[0], "name");
      if n.Err? then Err(n.error)
      else if !n.value.Str? then Err(TypeError)
      else
        match Keyed(items[1..])
        case Err(e) => Err(e)
        case Ok(rest) =>
          assert forall i :: 1 <= i < |items| ==> items[i] == items[1..][i - 1];
          Ok([(n.value.s, items[0])] + rest)
  }

  /** One step of a stable insertion sort: `p` goes after every entry whose name is not greater. */
  function Insert(p: Package, ps: seq<Package>): seq<Package> {
    if ps == [] then [p]
    else if Below(p.0, ps[0].0) then [p] + ps
    else [ps[0]] + Insert(p, ps[1..])
  }

  /** Inserting adds the one entry. */
  lemma {:induction false} InsertKeeps(p: Package, ps: seq<Package>)
    ensures multiset(Insert(p, ps)) == multiset(ps) + multiset{p}
  {
    if ps != [] && !Below(p.0, ps[0].0) {
      InsertKeeps(p, ps[1..]);
      assert ps == [ps[0]] + ps[1..];
    }
  }

  /** An entry whose name is not above any name of a sorted list can go in front of it. */
  lemma SortedCons(x: Package, tail: seq<Package>)
    requires SortedByName(tail)
    requires forall j :: 0 <= j < |tail| ==> !Below(tail[j].0, x.0)
    ensures SortedByName([x] + tail)
  {
    var r := [x] + tail;
    forall i, j | 0 <= i < j < |r| ensures !Below(r[j].0, r[i].0) {
      assert r[j] == tail[j - 1];
      if i > 0 { assert r[i] == tail[i - 1]; }
    }
  }

  /** Every entry of `ps` is somewhere in it. */
  lemma InMultiset(x: Package, ps: seq<Package>)
    requires x in multiset(ps)
    ensures exists k :: 0 <= k < |ps| && ps[k] == x
  {
    assert x in ps;
  }

  lemma {:induction false} InsertSorted(p: Package, ps: seq<Package>)
    requires SortedByName(ps)
    ensures SortedByName(Insert(p, ps))
  {
    if ps == [] {
    } else if Below(p.0, ps[0].0) {
      forall j | 0 <= j < |ps| ensures !Below(ps[j].0, p.0) {
        BelowTransitive(ps[j].0, p.0, ps[0].0);
        BelowIrreflexive(ps[0].0);
      }
      SortedCons(p, ps);
    } else {
      var tail := Insert(p, ps[1..]);
      InsertSorted(p, ps[1..]);
      InsertKeeps(p, ps[1..]);
      forall j | 0 <= j < |tail| ensures !Below(tail[j].0, ps[0].0) {
        assert tail[j] in multiset(tail);
        if tail[j] != p {
          InMultiset(tail[j], ps[1..]);
          var k :| 0 <= k < |ps[1..]| && ps[1..][k] == tail[j];
          assert ps[k + 1] == tail[j];
        }
      }
      SortedCons(ps[0], tail);
    }
  }

  /** `sorted(..., key=lambda p: p['name'])` on the keyed entries. */
  function SortByName(ps: seq<Package>): seq<Package> {
    if ps == [] then [] else Insert(ps[|ps| - 1], SortByName(ps[..|ps| - 1]))
  }

  /** The sort orders by name and keeps every entry. */
  lemma {:induction false} SortByNameCorrect(ps: seq<Package>)
    ensures SortedByName(SortByName(ps))
    ensures multiset(SortByName(ps)) == multiset(ps)
  {
    if ps != [] {
      var init := ps[..|ps| - 1];
      SortByNameCorrect(init);
      InsertSorted(ps[|ps| - 1], SortByName(init));
      InsertKeeps(ps[|ps| - 1], SortByName(init));
      assert ps == init + [ps[|ps| - 1]];
    }
  }

  /** What `get_pip_outdated` returns for the decoded output of `pip list`. */
  function Outdated(j: Json): Result<seq<Package>> {
    var items :- Iterate(j);
    var keyed :- Keyed(items);
    Ok(SortByName(keyed))
  }

  /** The outdated packages come sorted by name, each entry once with its own name. */
  lemma OutdatedSorted(j: Json)
    ensures Outdated(j).Ok? <==> Iterate(j).Ok? && Keyed(Iterate(j).value).Ok?
    ensures Outdated(j).Ok? ==> SortedByName(Outdated(j).value) &&
                                multiset(Outdated(j).value) == multiset(Keyed(Iterate(j).value).value)
  {
    if Iterate(j).Ok? && Keyed(Iterate(j).value).Ok? {
      SortByNameCorrect(Keyed(Iterate(j).value).value);
    }
  }
}
