/** The version algebra of req_update/util.py: the structural upgrade check `compare_versions`,
    the major-bump detector `check_major_version_update`, the candidate generator
    `generate_next_versions`, and the running-maximum fold over registry tags that the image
    updaters share. */
module Versions {
  import opened Text
  import opened Wrappers

  // ---------------------------------------------------------------------------------------
  // Digit runs and the structural skeleton
  // ---------------------------------------------------------------------------------------

  /** `re.sub("[0-9]+", "", s)`: the version's structure, every digit removed. */
  function Skeleton(s: string): (r: string)
    ensures NoDigits(r)
  {
    if s == [] then []
    else
      var rest := Skeleton(s[1..]);
      var r := (if IsDigit(s[0]) then [] else [s[0]]) + rest;
      assert forall i :: 1 <= i < |r| && !IsDigit(s[0]) ==> r[i] == rest[i - 1];
      r
  }

  /** The longest prefix of digits. */
  function LeadingDigits(s: string): (d: string)
    ensures |d| <= |s| && d == s[..|d|]
    ensures forall i :: 0 <= i < |d| ==> IsDigit(d[i])
    ensures |d| == |s| || !IsDigit(s[|d|])
  {
    if s == [] || !IsDigit(s[0]) then []
    else
      var d := [s[0]] + LeadingDigits(s[1..]);
      assert s == [s[0]] + s[1..];
      d
  }

  /** The longest prefix without digits. */
  function LeadingText(s: string): (t: string)
    ensures |t| <= |s| && t == s[..|t|]
    ensures NoDigits(t)
    ensures |t| == |s| || IsDigit(s[|t|])
  {
    if s == [] || IsDigit(s[0]) then []
    else
      var t := [s[0]] + LeadingText(s[1..]);
      assert s == [s[0]] + s[1..];
      t
  }

  /** `[int(m) for m in re.findall(r"\d+", s)]`: the values of the maximal digit runs, in order. */
  function DigitRuns(s: string): seq<nat>
    decreases |s|
  {
    if s == [] then []
    else if IsDigit(s[0]) then
      var d := LeadingDigits(s);
      assert d != [];
      [DigitsValue(d)] + DigitRuns(s[|d|..])
    else DigitRuns(s[1..])
  }

  // ---------------------------------------------------------------------------------------
  // compare_versions
  // ---------------------------------------------------------------------------------------

  /** The loop over `zip(current_nums, proposed_nums)`: true at the first pair where the current
      number is smaller, false at the first pair where it is larger, false when the shorter list
      runs out. */
  function RunsLess(a: seq<nat>, b: seq<nat>): bool {
    if a == [] || b == [] then false
    else if a[0] < b[0] then true
    else if a[0] > b[0] then false
    else RunsLess(a[1..], b[1..])
  }

  /** `compare_versions(current, proposed)`: whether `proposed` is an upgrade of `current`. */
  function CompareVersions(current: string, proposed: string): (r: bool)
    ensures r ==> Skeleton(current) == Skeleton(proposed)
  {
    Skeleton(current) == Skeleton(proposed) && RunsLess(DigitRuns(current), DigitRuns(proposed))
  }

  /** At the first index, within the shorter list, where the two lists differ, `a` is smaller. */
  predicate FirstDifferenceLess(a: seq<nat>, b: seq<nat>) {
    exists k :: 0 <= k < |a| && k < |b| && a[..k] == b[..k] && a[k] < b[k]
  }

  /** The digit-run comparison is decided at the first index, within the shorter list, where the
      two lists differ; lists that agree on the shorter length compare as "not an upgrade". */
  lemma {:induction false} RunsLessFirstDifference(a: seq<nat>, b: seq<nat>)
    ensures RunsLess(a, b) <==> FirstDifferenceLess(a, b)
  {
    if a == [] || b == [] {
    } else if a[0] < b[0] {
      assert a[..0] == b[..0];
    } else if a[0] > b[0] {
      assert forall k :: 0 < k <= |a| && k <= |b| && a[..k] == b[..k] ==> a[..k][0] == b[..k][0];
    } else {
      RunsLessFirstDifference(a[1..], b[1..]);
      if RunsLess(a, b) {
        var k :| 0 <= k < |a| - 1 && k < |b| - 1 && a[1..][..k] == b[1..][..k] && a[1..][k] < b[1..][k];
        assert a[..k + 1] == [a[0]] + a[1..][..k];
        assert b[..k + 1] == [b[0]] + b[1..][..k];
        assert a[k + 1] < b[k + 1];
      } else {
        forall k | 0 <= k < |a| && k < |b| && a[..k] == b[..k]
          ensures a[k] >= b[k]
        {
          if k > 0 {
            assert a[1..][..k - 1] == a[..k][1..] == b[..k][1..] == b[1..][..k - 1];
            assert a[1..][k - 1] == a[k] && b[1..][k - 1] == b[k];
          }
        }
      }
    }
  }

  lemma {:induction false} RunsLessIrreflexive(a: seq<nat>)
    ensures !RunsLess(a, a)
  {
    if a != [] { RunsLessIrreflexive(a[1..]); }
  }

  lemma {:induction false} RunsLessAsymmetric(a: seq<nat>, b: seq<nat>)
    requires RunsLess(a, b)
    ensures !RunsLess(b, a)
  {
    if a[0] == b[0] { RunsLessAsymmetric(a[1..], b[1..]); }
  }

  lemma {:induction false} RunsLessTransitive(a: seq<nat>, b: seq<nat>, c: seq<nat>)
    requires RunsLess(a, b) && RunsLess(b, c)
    ensures RunsLess(a, c)
  {
    if a[0] == b[0] && b[0] == c[0] { RunsLessTransitive(a[1..], b[1..], c[1..]); }
  }

  /** No version is an upgrade of itself. */
  lemma CompareVersionsIrreflexive(v: string)
    ensures !CompareVersions(v, v)
  {
    RunsLessIrreflexive(DigitRuns(v));
  }

  /** Upgrades go one way only. */
  lemma CompareVersionsAsymmetric(a: string, b: string)
    requires CompareVersions(a, b)
    ensures !CompareVersions(b, a)
  {
    RunsLessAsymmetric(DigitRuns(a), DigitRuns(b));
  }

  /** An upgrade of an upgrade is an upgrade: what makes the running-maximum folds sound. */
  lemma CompareVersionsTransitive(a: string, b: string, c: string)
    requires CompareVersions(a, b) && CompareVersions(b, c)
    ensures CompareVersions(a, c)
  {
    RunsLessTransitive(DigitRuns(a), DigitRuns(b), DigitRuns(c));
  }

  /** `compare_versions` spelled out: equal skeletons, and at the first position within the
      shorter digit-run list where the numbers differ, the current one is smaller. */
  lemma CompareVersionsCharacterization(current: string, proposed: string)
    ensures CompareVersions(current, proposed) <==>
            Skeleton(current) == Skeleton(proposed)
            && FirstDifferenceLess(DigitRuns(current), DigitRuns(proposed))
  {
    RunsLessFirstDifference(DigitRuns(current), DigitRuns(proposed));
  }

  /** When one digit-run list is a prefix of the other, there is no upgrade. */
  lemma CompareVersionsPrefixIsNoUpgrade(current: string, proposed: string)
    requires var a, b := DigitRuns(current), DigitRuns(proposed);
             if |a| <= |b| then a == b[..|a|] else b == a[..|b|]
    ensures !CompareVersions(current, proposed)
  {
    var a, b := DigitRuns(current), DigitRuns(proposed);
    RunsLessFirstDifference(a, b);
    forall k | 0 <= k < |a| && k < |b| ensures a[k] == b[k] {
      if |a| <= |b| { assert b[..|a|][k] == b[k]; } else { assert a[..|b|][k] == a[k]; }
    }
  }

  // ---------------------------------------------------------------------------------------
  // check_major_version_update
  // ---------------------------------------------------------------------------------------

  /** The characters `lstrip('^~ ')` removes. */
  const RangeOperators: set<char> := {'^', '~', ' '}

  /** The body Python's `int()` accepts after the sign: digits, single underscores between them. */
  predicate IsIntBody(b: string) {
    && |b| > 0 && IsDigit(b[0]) && IsDigit(b[|b| - 1])
    && (forall i :: 0 <= i < |b| ==> IsDigit(b[i]) || b[i] == '_')
    && (forall i :: 0 <= i < |b| - 1 ==> !(b[i] == '_' && b[i + 1] == '_'))
  }

  /** `b` with its underscores deleted: together with `RemoveUnderscoresAppend`, every other
      character is kept, in order. */
  function RemoveUnderscores(b: string): (r: string)
    ensures forall i :: 0 <= i < |r| ==> r[i] != '_'
    ensures |b| == 1 ==> r == if b[0] == '_' then [] else b
    ensures (forall i :: 0 <= i < |b| ==> IsDigit(b[i]) || b[i] == '_') ==>
            forall i :: 0 <= i < |r| ==> IsDigit(r[i])
  {
    if b == [] then []
    else
      var rest := RemoveUnderscores(b[1..]);
      assert b == [b[0]] + b[1..];
      (if b[0] == '_' then [] else [b[0]]) + rest
  }

  /** A string without underscores is left as it is. */
  lemma {:induction false} RemoveUnderscoresNone(b: string)
    requires forall i :: 0 <= i < |b| ==> b[i] != '_'
    ensures RemoveUnderscores(b) == b
    decreases |b|
  {
    if b != [] {
      RemoveUnderscoresNone(b[1..]);
      assert b == [b[0]] + b[1..];
    }
  }

  /** Deleting underscores shortens the string by exactly its number of underscores. */
  lemma {:induction false} RemoveUnderscoresLength(b: string)
    ensures |RemoveUnderscores(b)| == |b| - Count(b, '_')
    decreases |b|
  {
    if b != [] {
      RemoveUnderscoresLength(b[1..]);
    }
  }

  /** Deleting underscores works piece by piece: the result for `a + b` is the result for `a`
      followed by the result for `b`. */
  lemma {:induction false} RemoveUnderscoresAppend(a: string, b: string)
    ensures RemoveUnderscores(a + b) == RemoveUnderscores(a) + RemoveUnderscores(b)
    decreases |a|
  {
    if a != [] {
      assert (a + b)[0] == a[0] && (a + b)[1..] == a[1..] + b;
      RemoveUnderscoresAppend(a[1..], b);
    } else {
      assert a + b == b;
    }
  }

  /** Python's `int(s)` on a decimal string: surrounding whitespace, an optional sign, digits
      with single underscores between them; `None` stands for the `ValueError`. */
  function PyInt(s: string): Option<int> {
    var t := Strip(s);
    var negative := |t| > 0 && t[0] == '-';
    var body := if |t| > 0 && (t[0] == '-' || t[0] == '+') then t[1..] else t;
    if IsIntBody(body) then
      var digits := RemoveUnderscores(body);
      var v: int := DigitsValue(digits);
      Some(if negative then -v else v)
    else None
  }

  /** A digit string is its own `int()` body. */
  lemma DigitsAreIntBody(s: string)
    requires IsDigits(s)
    ensures IsIntBody(s) && RemoveUnderscores(s) == s
  {
    assert forall i :: 0 <= i < |s| ==> s[i] != '_';
    RemoveUnderscoresNone(s);
  }

  /** `int()` reads back what `str()` writes. */
  lemma PyIntOfDigits(s: string)
    requires IsDigits(s)
    ensures PyInt(s) == Some(DigitsValue(s))
  {
    assert IsDigit(s[0]) && IsDigit(s[|s| - 1]);
    StripUnchanged(s);
    DigitsAreIntBody(s);
    var t := Strip(s);
    assert t == s && t[0] != '-' && t[0] != '+';
  }

  /** `check_major_version_update` without its warning: `None` when either version, after
      stripping leading `^`, `~` and spaces, is not three dot-separated parts whose first parses as
      an integer; otherwise whether the leading integers differ. */
  function MajorVersionChange(oldVersion: string, newVersion: string): (r: Option<bool>)
    ensures r.None? <==>
            var o, n := Split(LStripChars(oldVersion, RangeOperators), '.'),
                        Split(LStripChars(newVersion, RangeOperators), '.');
            |o| != 3 || |n| != 3 || PyInt(o[0]).None? || PyInt(n[0]).None?
  {
    var o := Split(LStripChars(oldVersion, RangeOperators), '.');
    var n := Split(LStripChars(newVersion, RangeOperators), '.');
    if |o| != 3 || |n| != 3 then None
    else match (PyInt(o[0]), PyInt(n[0]))
      case (Some(a), Some(b)) => Some(a != b)
      case _ => None
  }

  /** A version `MAJOR.MINOR.PATCH` written with `str()`. */
  function Semver(major: nat, minor: nat, patch: nat): string {
    NatToString(major) + "." + NatToString(minor) + "." + NatToString(patch)
  }

  lemma {:induction false} LStripCharsPrefix(p: string, r: string, chars: set<char>)
    requires forall i :: 0 <= i < |p| ==> p[i] in chars
    requires r == [] || r[0] !in chars
    ensures LStripChars(p + r, chars) == r
  {
    if p != [] {
      assert (p + r)[1..] == p[1..] + r;
      LStripCharsPrefix(p[1..], r, chars);
    }
  }

  lemma SplitSemver(a: nat, b: nat, c: nat)
    ensures Split(Semver(a, b, c), '.') == [NatToString(a), NatToString(b), NatToString(c)]
  {
    var A, B, C := NatToString(a), NatToString(b), NatToString(c);
    assert forall t: string :: IsDigits(t) ==> forall i :: 0 <= i < |t| ==> t[i] != '.';
    assert Semver(a, b, c) == A + ['.'] + (B + ['.'] + C);
    SplitAtFirst(A, B + ['.'] + C, '.');
    SplitAtFirst(B, C, '.');
  }

  /** One side of the detector: a range-prefixed semver string strips and splits into its three
      parts, the first of which parses as its major number. */
  lemma SemverMajor(p: string, a: nat, b: nat, c: nat)
    requires forall i :: 0 <= i < |p| ==> p[i] in RangeOperators
    ensures var o := Split(LStripChars(p + Semver(a, b, c), RangeOperators), '.');
            |o| == 3 && PyInt(o[0]) == Some(a)
  {
    assert Semver(a, b, c)[0] == NatToString(a)[0];
    LStripCharsPrefix(p, Semver(a, b, c), RangeOperators);
    SplitSemver(a, b, c);
    PyIntOfDigits(NatToString(a));
  }

  /** Against an independent reading: for range-prefixed semver strings the detector reports
      exactly whether the major numbers differ, whatever range operators precede them. */
  lemma MajorVersionChangeOfSemver(p: string, a: nat, b: nat, c: nat, q: string, x: nat, y: nat, z: nat)
    requires forall i :: 0 <= i < |p| ==> p[i] in RangeOperators
    requires forall i :: 0 <= i < |q| ==> q[i] in RangeOperators
    ensures MajorVersionChange(p + Semver(a, b, c), q + Semver(x, y, z)) == Some(a != x)
  {
    SemverMajor(p, a, b, c);
    SemverMajor(q, x, y, z);
  }

  // ---------------------------------------------------------------------------------------
  // generate_next_versions
  // ---------------------------------------------------------------------------------------

  /** A list shaped like the result of `re.split("([0-9]+)", s)`: digit-free text at even
      positions (only the first and last may be empty), digit runs at odd positions. */
  predicate Alternating(p: seq<string>) {
    && |p| % 2 == 1
    && (forall i :: 0 <= i < |p| && i % 2 == 0 ==> NoDigits(p[i]))
    && (forall i :: 0 <= i < |p| && i % 2 == 1 ==> IsDigits(p[i]))
    && (forall i :: 0 < i < |p| - 1 && i % 2 == 0 ==> p[i] != [])
  }

  lemma AlternatingCons(t: string, d: string, tail: seq<string>)
    requires NoDigits(t) && IsDigits(d) && Alternating(tail)
    requires |tail| > 1 ==> tail[0] != []
    ensures Alternating([t, d] + tail)
  {
    var p := [t, d] + tail;
    assert forall i :: 2 <= i < |p| ==> p[i] == tail[i - 2];
  }

  lemma LeadingTextOfNonDigit(s: string)
    requires s != [] && !IsDigit(s[0])
    ensures LeadingText(s) != []
  {
  }

  lemma ConcatCons(t: string, d: string, tail: seq<string>)
    ensures Concat([t, d] + tail) == t + (d + Concat(tail))
  {
    var p := [t, d] + tail;
    assert p[1..] == [d] + tail && ([d] + tail)[1..] == tail;
  }

  /** `re.split("([0-9]+)", s)`. */
  function SplitRuns(s: string): seq<string>
    decreases |s|
  {
    var t := LeadingText(s);
    if |t| == |s| then [s]
    else
      var d := LeadingDigits(s[|t|..]);
      assert IsDigit(s[|t|..][0]);
      [t, d] + SplitRuns(s[|t|..][|d|..])
  }

  /** One step of `re.split`: a text, the run after it, and the split of what follows the run. */
  lemma SplitRunsStep(s: string)
    requires |LeadingText(s)| < |s|
    ensures var t := LeadingText(s);
            var d := LeadingDigits(s[|t|..]);
            var after := s[|t|..][|d|..];
            && IsDigits(d)
            && (after == [] || !IsDigit(after[0]))
            && SplitRuns(s) == [t, d] + SplitRuns(after)
            && s == t + (d + after)
            && (!IsDigit(s[0]) ==> t != [])
  {
    var t := LeadingText(s);
    var rest := s[|t|..];
    assert IsDigit(rest[0]);
    var d := LeadingDigits(rest);
    assert s == s[..|t|] + rest;
    assert rest == rest[..|d|] + rest[|d|..];
    if !IsDigit(s[0]) { LeadingTextOfNonDigit(s); }
  }

  /** The pieces of `re.split` alternate between text and runs, and join back to the input. */
  lemma {:induction false} SplitRunsAlternating(s: string)
    ensures Alternating(SplitRuns(s))
    ensures Concat(SplitRuns(s)) == s
    ensures s == [] ==> |SplitRuns(s)| == 1
    ensures s != [] && !IsDigit(s[0]) ==> SplitRuns(s)[0] != []
    decreases |s|
  {
    var t := LeadingText(s);
    if |t| == |s| {
      assert t == s;
      assert Concat([s]) == s + Concat([]);
    } else {
      SplitRunsStep(s);
      var d := LeadingDigits(s[|t|..]);
      var after := s[|t|..][|d|..];
      SplitRunsAlternating(after);
      var tail := SplitRuns(after);
      AlternatingCons(t, d, tail);
      ConcatCons(t, d, tail);
    }
  }

  /** The values of the runs of an alternating list. */
  function RunValues(p: seq<string>): (r: seq<nat>)
    requires Alternating(p)
    ensures |r| == |p| / 2
  {
    seq(|p| / 2, j requires 0 <= j < |p| / 2 => assert IsDigits(p[2 * j + 1]); DigitsValue(p[2 * j + 1]))
  }

  /** The texts of an alternating list. */
  function Texts(p: seq<string>): (r: seq<string>)
    requires Alternating(p)
    ensures |r| == |p| / 2 + 1
  {
    seq(|p| / 2 + 1, j requires 0 <= j <= |p| / 2 => p[2 * j])
  }

  lemma AlternatingTail(p: seq<string>)
    requires Alternating(p) && |p| >= 3
    ensures Alternating(p[2..])
    ensures RunValues(p) == [DigitsValue(p[1])] + RunValues(p[2..])
    ensures Texts(p) == [p[0]] + Texts(p[2..])
  {
    var q := p[2..];
    assert forall i :: 0 <= i < |q| ==> q[i] == p[i + 2];
    assert Alternating(q);
  }

  lemma {:induction false} SkeletonAppend(a: string, b: string)
    ensures Skeleton(a + b) == Skeleton(a) + Skeleton(b)
  {
    if a != [] {
      assert (a + b)[1..] == a[1..] + b;
      SkeletonAppend(a[1..], b);
    } else {
      assert a + b == b;
    }
  }

  lemma {:induction false} SkeletonOfText(t: string)
    requires NoDigits(t)
    ensures Skeleton(t) == t
  {
    if t != [] { SkeletonOfText(t[1..]); assert t == [t[0]] + t[1..]; }
  }

  lemma {:induction false} SkeletonOfDigits(d: string)
    requires forall i :: 0 <= i < |d| ==> IsDigit(d[i])
    ensures Skeleton(d) == []
  {
    if d != [] { SkeletonOfDigits(d[1..]); }
  }

  lemma {:induction false} DigitRunsAfterText(t: string, x: string)
    requires NoDigits(t)
    ensures DigitRuns(t + x) == DigitRuns(x)
  {
    if t != [] {
      assert (t + x)[0] == t[0];
      assert (t + x)[1..] == t[1..] + x;
      DigitRunsAfterText(t[1..], x);
    } else {
      assert t + x == x;
    }
  }

  lemma {:induction false} LeadingDigitsOfRun(d: string, x: string)
    requires forall i :: 0 <= i < |d| ==> IsDigit(d[i])
    requires x == [] || !IsDigit(x[0])
    ensures LeadingDigits(d + x) == d
  {
    if d != [] {
      assert (d + x)[1..] == d[1..] + x;
      LeadingDigitsOfRun(d[1..], x);
      assert d == [d[0]] + d[1..];
    } else {
      assert d + x == x;
    }
  }

  lemma DigitRunsAfterRun(d: string, x: string)
    requires IsDigits(d)
    requires x == [] || !IsDigit(x[0])
    ensures DigitRuns(d + x) == [DigitsValue(d)] + DigitRuns(x)
  {
    LeadingDigitsOfRun(d, x);
    assert (d + x)[0] == d[0];
    assert (d + x)[|d|..] == x;
  }

  /** An alternating list joins as its first text, its first run, then the join of the rest,
      which does not start with a digit. */
  lemma ConcatAlternatingStep(p: seq<string>)
    requires Alternating(p) && |p| >= 3
    ensures Concat(p) == p[0] + (p[1] + Concat(p[2..]))
    ensures Concat(p[2..]) == [] || !IsDigit(Concat(p[2..])[0])
  {
    var rest := Concat(p[2..]);
    assert Concat(p) == p[0] + (p[1] + rest) by {
      assert p[1..][1..] == p[2..];
    }
    assert rest == p[2] + Concat(p[3..]) by {
      assert p[2..][1..] == p[3..];
    }
    if |p| > 3 {
      assert p[2] != [];
      assert rest[0] == p[2][0];
    } else {
      assert p[3..] == [];
      assert rest == p[2];
    }
  }

  /** A single text joins to itself, without runs. */
  lemma ConcatSingleText(p: seq<string>)
    requires Alternating(p) && |p| == 1
    ensures DigitRuns(Concat(p)) == RunValues(p)
    ensures Skeleton(Concat(p)) == Concat(Texts(p))
  {
    assert Concat(p) == p[0] + Concat([]);
    assert p[0] + [] == p[0];
    assert Texts(p) == [p[0]];
    assert Concat(Texts(p)) == p[0] + Concat([]);
    SkeletonOfText(p[0]);
    DigitRunsAfterText(p[0], []);
  }

  /** Joining an alternating list and reading its runs back gives its run values. */
  lemma {:induction false} DigitRunsOfConcat(p: seq<string>)
    requires Alternating(p)
    ensures DigitRuns(Concat(p)) == RunValues(p)
    decreases |p|
  {
    if |p| == 1 {
      ConcatSingleText(p);
    } else {
      AlternatingTail(p);
      DigitRunsOfConcat(p[2..]);
      ConcatAlternatingStep(p);
      var rest := Concat(p[2..]);
      DigitRunsAfterText(p[0], p[1] + rest);
      DigitRunsAfterRun(p[1], rest);
    }
  }

  /** Joining an alternating list and removing its digits gives its texts joined. */
  lemma {:induction false} SkeletonOfConcat(p: seq<string>)
    requires Alternating(p)
    ensures Skeleton(Concat(p)) == Concat(Texts(p))
    decreases |p|
  {
    if |p| == 1 {
      ConcatSingleText(p);
    } else {
      AlternatingTail(p);
      SkeletonOfConcat(p[2..]);
      ConcatAlternatingStep(p);
      var rest := Concat(p[2..]);
      SkeletonAppend(p[0], p[1] + rest);
      SkeletonAppend(p[1], rest);
      SkeletonOfText(p[0]);
      SkeletonOfDigits(p[1]);
      assert Concat(Texts(p)) == p[0] + Concat(Texts(p[2..])) by {
        assert Texts(p)[1..] == Texts(p[2..]);
      }
    }
  }

  /** Joining an alternating list and reading it back gives its runs and its texts. */
  lemma ConcatAlternating(p: seq<string>)
    requires Alternating(p)
    ensures DigitRuns(Concat(p)) == RunValues(p)
    ensures Skeleton(Concat(p)) == Concat(Texts(p))
  {
    DigitRunsOfConcat(p);
    SkeletonOfConcat(p);
  }

  lemma DigitRunsSplitRuns(s: string)
    ensures Alternating(SplitRuns(s))
    ensures DigitRuns(s) == RunValues(SplitRuns(s))
    ensures Skeleton(s) == Concat(Texts(SplitRuns(s)))
  {
    SplitRunsAlternating(s);
    ConcatAlternating(SplitRuns(s));
  }

  /** `p` with every run at index `from` or beyond replaced by "0", zeroing from the right as
      the loop of `generate_next_versions` does. */
  function ZeroRunsFrom(p: seq<string>, from: nat): (q: seq<string>)
    ensures |q| == |p|
    decreases |p| - from
  {
    if from >= |p| then p
    else if from % 2 == 1 then ZeroRunsFrom(p, from + 1)[from := "0"]
    else ZeroRunsFrom(p, from + 1)
  }

  lemma {:induction false} ZeroRunsAt(p: seq<string>, from: nat, t: nat)
    requires t < |p|
    ensures ZeroRunsFrom(p, from)[t] == if t >= from && t % 2 == 1 then "0" else p[t]
    decreases |p| - from
  {
    if from < |p| { ZeroRunsAt(p, from + 1, t); }
  }

  /** The version `ms` spells with the run at position `i` incremented:
      `"".join(matches[:i] + [str(int(match) + 1)] + matches[i + 1:])`. */
  function IncrementRun(ms: seq<string>, i: nat): string
    requires i < |ms| && IsDigits(ms[i])
  {
    Concat(ms[..i] + [NatToString(DigitsValue(ms[i]) + 1)] + ms[i + 1..])
  }

  /** The specification of one candidate: run `j` (counted from the left) incremented, every run
      to its right set to "0", everything before it unchanged. */
  function BumpRun(p: seq<string>, j: nat): string
    requires Alternating(p) && j < |p| / 2
  {
    assert IsDigits(p[2 * j + 1]);
    ZeroRunsAt(p, 2 * j + 2, 2 * j + 1);
    IncrementRun(ZeroRunsFrom(p, 2 * j + 2), 2 * j + 1)
  }

  /** The pieces `BumpRun` joins: the runs after run `j` zeroed, run `j` incremented. */
  function BumpedPieces(p: seq<string>, j: nat): (q: seq<string>)
    requires Alternating(p) && j < |p| / 2
    ensures |q| == |p|
  {
    assert IsDigits(p[2 * j + 1]);
    ZeroRunsFrom(p, 2 * j + 2)[2 * j + 1 := NatToString(DigitsValue(p[2 * j + 1]) + 1)]
  }

  lemma BumpedPiecesAt(p: seq<string>, j: nat, t: nat)
    requires Alternating(p) && j < |p| / 2 && t < |p|
    ensures IsDigits(p[2 * j + 1])
    ensures BumpedPieces(p, j)[t] ==
            if t == 2 * j + 1 then NatToString(DigitsValue(p[2 * j + 1]) + 1)
            else if t > 2 * j + 1 && t % 2 == 1 then "0"
            else p[t]
  {
    ZeroRunsAt(p, 2 * j + 2, t);
  }

  lemma UpdateAsSplice<T>(s: seq<T>, i: nat, x: T)
    requires i < |s|
    ensures s[..i] + [x] + s[i + 1..] == s[i := x]
  {
  }

  lemma BumpRunPieces(p: seq<string>, j: nat)
    requires Alternating(p) && j < |p| / 2
    ensures BumpRun(p, j) == Concat(BumpedPieces(p, j))
  {
    var idx := 2 * j + 1;
    var z := ZeroRunsFrom(p, idx + 1);
    ZeroRunsAt(p, idx + 1, idx);
    UpdateAsSplice(z, idx, NatToString(DigitsValue(z[idx]) + 1));
  }

  /** The candidates for the `c` rightmost runs of `p`, rightmost first. */
  function Candidates(p: seq<string>, c: nat): (r: seq<string>)
    requires Alternating(p) && c <= |p| / 2
    ensures |r| == c
  {
    if c == 0 then [] else Candidates(p, c - 1) + [BumpRun(p, |p| / 2 - c)]
  }

  /** An alternating list of `2n+1` pieces has `n` runs. */
  lemma RunCount(p: seq<string>)
    requires Alternating(p)
    ensures |p| == 2 * (|p| / 2) + 1
  {
  }

  lemma {:induction false} CandidatesAt(p: seq<string>, n: nat, c: nat, k: nat)
    requires Alternating(p) && |p| / 2 == n && k < c <= n
    ensures Candidates(p, c)[k] == BumpRun(p, n - 1 - k)
  {
    var prev := Candidates(p, c - 1);
    var last := BumpRun(p, |p| / 2 - c);
    assert Candidates(p, c) == prev + [last];
    if k < c - 1 {
      CandidatesAt(p, n, c - 1, k);
      assert (prev + [last])[k] == prev[k];
    } else {
      assert |p| / 2 - c == n - 1 - k;
      assert (prev + [last])[k] == last;
    }
  }

  /** What `generate_next_versions(current)` promises: one candidate per digit run, the k-th
      bumping the k-th run from the right. (The guard only lets `Candidates` see that the split
      alternates; `SplitRunsAlternating` shows it always does.) */
  function NextVersions(current: string): seq<string> {
    var p := SplitRuns(current);
    if Alternating(p) then Candidates(p, |p| / 2) else []
  }

  lemma NextVersionsAreCandidates(current: string)
    ensures Alternating(SplitRuns(current))
    ensures NextVersions(current) == Candidates(SplitRuns(current), |SplitRuns(current)| / 2)
  {
    SplitRunsAlternating(current);
  }

  /** The k-th generated version bumps the k-th run from the right of the split `p`. */
  lemma NextVersionsAt(current: string, p: seq<string>, k: nat)
    requires p == SplitRuns(current) && k < |p| / 2
    ensures Alternating(p)
    ensures |NextVersions(current)| == |p| / 2
    ensures NextVersions(current)[k] == BumpRun(p, |p| / 2 - 1 - k)
  {
    NextVersionsAreCandidates(current);
    var n := |p| / 2;
    var cands := Candidates(p, n);
    assert NextVersions(current) == cands;
    CandidatesAt(p, n, n, k);
  }

  lemma OddPosition(i: int, m: int)
    requires i + 1 == 2 * m
    ensures i % 2 == 1 && 2 * (m - 1) + 1 == i
  {
  }

  lemma EvenPosition(i: int, m: int)
    requires i == 2 * m
    ensures i % 2 == 0
  {
  }

  lemma BumpRunAt(p: seq<string>, j: nat, i: nat, matches: seq<string>)
    requires Alternating(p) && j < |p| / 2 && i == 2 * j + 1
    requires matches == ZeroRunsFrom(p, i + 1)
    ensures IsDigits(matches[i]) && BumpRun(p, j) == IncrementRun(matches, i)
  {
    OddPosition(i, j + 1);
    assert IsDigits(p[i]);
    ZeroRunsAt(p, i + 1, i);
    assert matches[i] == p[i];
  }

  /** The loop meets a run: it is run `n - 1 - c`, and the version built there is candidate `c`. */
  lemma LoopStepAtRun(p: seq<string>, n: nat, c: nat, i: nat, matches: seq<string>)
    requires Alternating(p) && |p| == 2 * n + 1 && c < n && i + 1 == 2 * (n - c)
    requires matches == ZeroRunsFrom(p, i + 1)
    ensures IsDigits(matches[i]) && |p| / 2 == n
    ensures Candidates(p, n)[c] == IncrementRun(matches, i)
    ensures matches[i := "0"] == ZeroRunsFrom(p, i)
  {
    ZeroRunsAt(p, i + 1, i);
    OddPosition(i, n - c);
    assert |p| / 2 == n;
    CandidatesAt(p, n, n, c);
    BumpRunAt(p, n - 1 - c, i, matches);
  }

  /** The loop meets a text: nothing is emitted and nothing changes. */
  lemma LoopStepAtText(p: seq<string>, n: nat, c: nat, i: nat, matches: seq<string>)
    requires Alternating(p) && |p| == 2 * n + 1 && c <= n && i < |p| && i == 2 * (n - c)
    requires matches == ZeroRunsFrom(p, i + 1)
    ensures !IsDigits(matches[i])
    ensures matches == ZeroRunsFrom(p, i)
  {
    ZeroRunsAt(p, i + 1, i);
    EvenPosition(i, n - c);
    assert NoDigits(p[i]);
    assert p[i] == [] || !IsDigit(p[i][0]);
  }

  /** One pass of the loop body, about the pieces alone, after `c` of the `n` candidates: a run
      is met exactly where the count says one is due, the version built there extends the
      candidates emitted so far, and the pieces then have one more run zeroed. */
  lemma LoopStep(p: seq<string>, n: nat, c: nat, i: nat, matches: seq<string>)
    requires Alternating(p) && |p| == 2 * n + 1 && c <= n && i < |p|
    requires 0 <= i + 1 - 2 * (n - c) <= 1
    requires matches == ZeroRunsFrom(p, i + 1)
    ensures IsDigits(matches[i]) <==> i + 1 == 2 * (n - c)
    ensures IsDigits(matches[i]) ==>
              && c < n && |p| / 2 == n
              && Candidates(p, n)[..c + 1] == Candidates(p, n)[..c] + [IncrementRun(matches, i)]
              && matches[i := "0"] == ZeroRunsFrom(p, i)
    ensures !IsDigits(matches[i]) ==> matches == ZeroRunsFrom(p, i)
  {
    if i + 1 == 2 * (n - c) {
      LoopStepAtRun(p, n, c, i, matches);
      PrefixExtend(Candidates(p, n), c);
    } else {
      LoopStepAtText(p, n, c, i, matches);
    }
  }

  lemma PrefixExtend<T>(s: seq<T>, k: nat)
    requires k < |s|
    ensures s[..k + 1] == s[..k] + [s[k]]
  {
  }

  /** `generate_next_versions`: walk the split pieces from the right; at each digit run emit the
      version with that run incremented (runs to its right already zeroed), then zero it. */
  method GenerateNextVersions(current: string) returns (versions: seq<string>)
    ensures versions == NextVersions(current)
  {
    var matches := SplitRuns(current);
    NextVersionsAreCandidates(current);
    ghost var p := matches;
    RunCount(p);
    ghost var n := |p| / 2;
    ghost var cands := Candidates(p, n);
    versions := [];
    var i := |matches| - 1;
    while i >= 0
      invariant -1 <= i < |p| && |versions| <= n
      invariant 0 <= i + 1 - 2 * (n - |versions|) <= 1
      invariant matches == ZeroRunsFrom(p, i + 1)
      invariant versions == cands[..|versions|]
    {
      LoopStep(p, n, |versions|, i, matches);
      if IsDigits(matches[i]) {
        var next := IncrementRun(matches, i);
        versions := versions + [next];
        matches := matches[i := "0"];
      }
      i := i - 1;
    }
    assert versions == cands;
  }

  /** The run values of the candidate that bumps run `j`: the runs before it kept, run `j` one
      larger, every later run zero. */
  function BumpedRuns(runs: seq<nat>, j: nat): (r: seq<nat>)
    requires j < |runs|
    ensures |r| == |runs|
  {
    runs[..j] + [runs[j] + 1] + Zeros(|runs| - 1 - j)
  }

  function Zeros(n: nat): (r: seq<nat>)
    ensures |r| == n && forall i :: 0 <= i < n ==> r[i] == 0
  {
    if n == 0 then [] else [0] + Zeros(n - 1)
  }

  lemma ZeroRun()
    ensures IsDigits("0") && DigitsValue("0") == 0
  {
    assert "0"[0] == '0';
  }

  /** The bumped pieces still alternate, with the same texts. */
  lemma BumpedPiecesAlternating(p: seq<string>, j: nat)
    requires Alternating(p) && j < |p| / 2
    ensures Alternating(BumpedPieces(p, j))
    ensures Texts(BumpedPieces(p, j)) == Texts(p)
  {
    var q := BumpedPieces(p, j);
    ZeroRun();
    forall i | 0 <= i < |q| && i % 2 == 1 ensures IsDigits(q[i]) {
      BumpedPiecesAt(p, j, i);
    }
    forall i | 0 <= i < |q| && i % 2 == 0 ensures q[i] == p[i] {
      BumpedPiecesAt(p, j, i);
    }
    assert Alternating(q);
    forall t | 0 <= t < |Texts(p)| ensures Texts(q)[t] == Texts(p)[t] {
      assert q[2 * t] == p[2 * t];
    }
  }

  /** The runs of the bumped pieces are `BumpedRuns` of the runs. */
  lemma BumpedPiecesRuns(p: seq<string>, j: nat)
    requires Alternating(p) && j < |p| / 2
    ensures Alternating(BumpedPieces(p, j))
    ensures RunValues(BumpedPieces(p, j)) == BumpedRuns(RunValues(p), j)
  {
    BumpedPiecesAlternating(p, j);
    var q := BumpedPieces(p, j);
    ZeroRun();
    var runs := RunValues(p);
    var expected := BumpedRuns(runs, j);
    forall r | 0 <= r < |runs| ensures RunValues(q)[r] == expected[r] {
      BumpedPiecesAt(p, j, 2 * r + 1);
      if r > j {
        assert expected[r] == Zeros(|runs| - 1 - j)[r - j - 1];
      } else if r == j {
        assert expected[r] == runs[j] + 1;
      } else {
        assert expected[r] == runs[r];
      }
    }
  }

  lemma BumpRunShape(p: seq<string>, j: nat)
    requires Alternating(p) && j < |p| / 2
    ensures Skeleton(BumpRun(p, j)) == Concat(Texts(p))
    ensures DigitRuns(BumpRun(p, j)) == BumpedRuns(RunValues(p), j)
  {
    BumpRunPieces(p, j);
    BumpedPiecesAlternating(p, j);
    BumpedPiecesRuns(p, j);
    ConcatAlternating(BumpedPieces(p, j));
  }

  /** The candidates keep the structure and carry the expected runs. */
  lemma NextVersionShape(current: string, k: nat)
    requires k < |DigitRuns(current)|
    ensures |NextVersions(current)| == |DigitRuns(current)|
    ensures var runs, j := DigitRuns(current), |DigitRuns(current)| - 1 - k;
            && Skeleton(NextVersions(current)[k]) == Skeleton(current)
            && DigitRuns(NextVersions(current)[k]) == BumpedRuns(runs, j)
  {
    DigitRunsSplitRuns(current);
    var p := SplitRuns(current);
    NextVersionsAt(current, p, k);
    BumpRunShape(p, |p| / 2 - 1 - k);
  }

  /** Bumping a run and zeroing the later ones gives a list that compares greater. */
  lemma BumpedRunsLess(runs: seq<nat>, j: nat)
    requires j < |runs|
    ensures RunsLess(runs, BumpedRuns(runs, j))
  {
    var bumped := BumpedRuns(runs, j);
    assert bumped[..j] == runs[..j] && bumped[j] == runs[j] + 1;
    RunsLessFirstDifference(runs, bumped);
  }

  /** Every generated candidate is, by `compare_versions`, an upgrade of the current version. */
  lemma NextVersionIsUpgrade(current: string, k: nat)
    requires k < |DigitRuns(current)|
    ensures |NextVersions(current)| == |DigitRuns(current)|
    ensures CompareVersions(current, NextVersions(current)[k])
  {
    NextVersionShape(current, k);
    BumpedRunsLess(DigitRuns(current), |DigitRuns(current)| - 1 - k);
  }

  // ---------------------------------------------------------------------------------------
  // The running-maximum fold over registry tags
  // ---------------------------------------------------------------------------------------

  /** `best` is what a running-maximum fold may end with: the original or an upgrade of it
      taken from the candidates, with no candidate an upgrade over it. */
  predicate IsNewest(original: string, candidates: seq<string>, best: string) {
    && (best == original || (best in candidates && CompareVersions(original, best)))
    && forall c :: c in candidates ==> !CompareVersions(best, c)
  }

  /** The newest version is never the empty string unless the original is. */
  lemma NewestNotEmpty(original: string, candidates: seq<string>, best: string)
    requires IsNewest(original, candidates, best) && best != original
    ensures best != ""
  {
  }

  /** `new_version = original; for v in available: if compare_versions(new_version, v):
      new_version = v` (docker.py and githubworkflow.py). */
  method SelectNewest(original: string, candidates: seq<string>) returns (best: string)
    ensures IsNewest(original, candidates, best)
  {
    best := original;
    var i := 0;
    while i < |candidates|
      invariant 0 <= i <= |candidates|
      invariant best == original || (best in candidates[..i] && CompareVersions(original, best))
      invariant forall j :: 0 <= j < i ==> !CompareVersions(best, candidates[j])
    {
      var v := candidates[i];
      if CompareVersions(best, v) {
        forall j | 0 <= j < i ensures !CompareVersions(v, candidates[j]) {
          if CompareVersions(v, candidates[j]) {
            CompareVersionsTransitive(best, v, candidates[j]);
          }
        }
        if best != original { CompareVersionsTransitive(original, best, v); }
        CompareVersionsIrreflexive(v);
        best := v;
      }
      i := i + 1;
    }
    assert candidates[..i] == candidates;
  }
}
