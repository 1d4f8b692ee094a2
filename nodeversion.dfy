/** The version specifiers the Node updater writes into `package.json`
    (req_update/node.py:13, 162-178): a semver version becomes a caret range on its leading
    non-zero component; anything else is kept as it is. */
module NodeVersion {
  import opened Wrappers
  import opened Text
  import opened Versions

  /** One component of the `SEMVER` pattern: `0|[1-9]\d*`, so no leading zeros. */
  predicate SemverPart(s: string) {
    s == "0" || (s != [] && '1' <= s[0] <= '9' && IsDigits(s))
  }

  function Dotted(parts: (string, string, string)): string {
    parts.0 + "." + parts.1 + "." + parts.2
  }

  /** What `SEMVER.match` captures: exactly three dot-separated components. Python's `$` also
      matches just before a final newline, so one trailing newline is allowed. */
  function SemverParts(version: string): (r: Option<(string, string, string)>)
    ensures r.Some? ==> SemverPart(r.value.0) && SemverPart(r.value.1) && SemverPart(r.value.2)
    ensures r.Some? ==> version == Dotted(r.value) || version == Dotted(r.value) + "\n"
  {
    var core := if version != [] && version[|version| - 1] == '\n' then version[..|version| - 1] else version;
    var pieces := Split(core, '.');
    if |pieces| == 3 && SemverPart(pieces[0]) && SemverPart(pieces[1]) && SemverPart(pieces[2]) then
      JoinThree(pieces);
      assert Dotted((pieces[0], pieces[1], pieces[2])) == core;
      assert version == core || version == core + "\n";
      Some((pieces[0], pieces[1], pieces[2]))
    else None
  }

  lemma JoinThree(pieces: seq<string>)
    requires |pieces| == 3
    ensures JoinWith(pieces, ".") == Dotted((pieces[0], pieces[1], pieces[2]))
  {
    assert pieces[1..][1..] == [pieces[2]];
    assert JoinWith(pieces[1..], ".") == pieces[1] + "." + pieces[2];
    assert JoinWith(pieces, ".") == pieces[0] + "." + (pieces[1] + "." + pieces[2]);
  }

  /** `generate_package_version`: `^MAJOR.0.0` for a non-zero major, `^0.MINOR.0` for a
      non-zero minor, the version itself for `0.0.PATCH` and for anything that is not semver;
      `0.0.0` raises `ValueError`. */
  function GeneratePackageVersion(version: string): (r: Result<string>)
    ensures r.Err? <==> SemverParts(version) == Some(("0", "0", "0"))
    ensures r.Err? ==> r.error == ValueError("Cannot compute version")
    ensures SemverParts(version).None? ==> r == Ok(version)
  {
    match SemverParts(version)
    case None => Ok(version)
    case Some((major, minor, patch)) => GenerateOfParts(version, major, minor, patch)
  }

  lemma ZeroString()
    ensures NatToString(0) == "0"
  {
  }

  /** Only zero is spelt `"0"`. */
  lemma ZeroStringIff(n: nat)
    ensures NatToString(n) == "0" <==> n == 0
  {
    if NatToString(n) == "0" {
      assert "0"[..0] == [];
      assert DigitsValue("0") == 0;
    }
  }

  /** A component of `SEMVER` is the decimal spelling of its value. */
  lemma SemverPartOfNat(n: nat)
    ensures SemverPart(NatToString(n))
  {
    var s := NatToString(n);
    if s[0] == '0' {
      assert s == "0";
    }
  }

  /** `Semver(a, b, c)` is read back as its three components, with or without a trailing
      newline. */
  lemma {:induction false} SemverPartsOfSemver(a: nat, b: nat, c: nat, newline: bool)
    ensures SemverParts(Semver(a, b, c) + (if newline then "\n" else "")) ==
              Some((NatToString(a), NatToString(b), NatToString(c)))
  {
    var v := Semver(a, b, c);
    var s := v + (if newline then "\n" else "");
    var core := if s != [] && s[|s| - 1] == '\n' then s[..|s| - 1] else s;
    assert core == v by {
      var C := NatToString(c);
      assert v[|v| - 1] == C[|C| - 1];
      assert IsDigit(C[|C| - 1]);
      if newline {
        assert s[..|s| - 1] == v;
      }
    }
    SplitSemver(a, b, c);
    SemverPartOfNat(a);
    SemverPartOfNat(b);
    SemverPartOfNat(c);
  }

  /** On a semver version the generated specifier is the caret range of the leading non-zero
      component, except that `0.0.PATCH` stays exact and `0.0.0` is refused. */
  lemma {:induction false} GenerateOfSemver(a: nat, b: nat, c: nat)
    ensures GeneratePackageVersion(Semver(a, b, c)) ==
              if a > 0 then Ok("^" + Semver(a, 0, 0))
              else if b > 0 then Ok("^" + Semver(0, b, 0))
              else if c > 0 then Ok(Semver(0, 0, c))
              else Err(ValueError("Cannot compute version"))
  {
    var r := GeneratePackageVersion(Semver(a, b, c));
    var A, B, C := NatToString(a), NatToString(b), NatToString(c);
    assert r == GenerateOfParts(Semver(a, b, c), A, B, C) by {
      SemverPartsOfSemver(a, b, c, false);
      assert Semver(a, b, c) + "" == Semver(a, b, c);
    }
    ZeroString();
    ZeroStringIff(a);
    ZeroStringIff(b);
    ZeroStringIff(c);
    if a > 0 {
      SemverZeros(a, 0);
    } else if b > 0 {
      SemverZeros(0, b);
    }
  }

  /** The caret ranges `generate_package_version` writes, as semver strings. */
  lemma SemverZeros(a: nat, b: nat)
    ensures "^" + NatToString(a) + ".0.0" == "^" + Semver(a, 0, 0)
    ensures "^0." + NatToString(b) + ".0" == "^" + Semver(0, b, 0)
  {
    ZeroString();
    var A, B := NatToString(a), NatToString(b);
    assert Semver(a, 0, 0) == A + ".0.0";
    assert Semver(0, b, 0) == "0." + B + ".0";
  }

  /** The branches of `generate_package_version` once the components are known. */
  function GenerateOfParts(version: string, major: string, minor: string, patch: string): Result<string> {
    if major != "0" then Ok("^" + major + ".0.0")
    else if minor != "0" then Ok("^0." + minor + ".0")
    else if patch != "0" then Ok(version)
    else Err(ValueError("Cannot compute version"))
  }

  /** The value of a component. */
  function PartValue(s: string): nat {
    if IsDigits(s) then DigitsValue(s) else 0
  }

  /** `(x, y, z)` is at least `(a, b, c)` in semver order. */
  predicate AtLeast(x: nat, y: nat, z: nat, a: nat, b: nat, c: nat) {
    x > a || (x == a && (y > b || (y == b && z >= c)))
  }

  /** Which versions `x.y.z` npm installs for a specifier: a caret range `^a.b.c` allows the
      versions from `a.b.c` that keep its leading non-zero component (all three components when
      they are all zero); a plain semver version allows itself only. */
  predicate Allows(specifier: string, x: nat, y: nat, z: nat) {
    if specifier != [] && specifier[0] == '^' then
      match SemverParts(specifier[1..])
      case None => false
      case Some(p) =>
        var a, b, c := PartValue(p.0), PartValue(p.1), PartValue(p.2);
        && AtLeast(x, y, z, a, b, c)
        && (if a > 0 then x == a else if b > 0 then x == 0 && y == b else x == 0 && y == 0 && z == c)
    else
      match SemverParts(specifier)
      case None => false
      case Some(p) => x == PartValue(p.0) && y == PartValue(p.1) && z == PartValue(p.2)
  }

  /** The specifier generated for a semver version allows exactly the versions that share its
      leading non-zero component (only itself for `0.0.PATCH`); in particular it allows the
      version it was generated from. */
  lemma {:induction false} GeneratedAllows(a: nat, b: nat, c: nat, x: nat, y: nat, z: nat)
    requires a > 0 || b > 0 || c > 0
    ensures GeneratePackageVersion(Semver(a, b, c)).Ok?
    ensures Allows(GeneratePackageVersion(Semver(a, b, c)).value, x, y, z) <==>
              if a > 0 then x == a
              else if b > 0 then x == 0 && y == b
              else x == 0 && y == 0 && z == c
    ensures Allows(GeneratePackageVersion(Semver(a, b, c)).value, a, b, c)
  {
    GenerateOfSemver(a, b, c);
    ZeroString();
    var r := GeneratePackageVersion(Semver(a, b, c)).value;
    if a > 0 {
      assert r[1..] == Semver(a, 0, 0);
      SemverPartsOfSemver(a, 0, 0, false);
      assert Semver(a, 0, 0) + "" == Semver(a, 0, 0);
    } else if b > 0 {
      assert r[1..] == Semver(0, b, 0);
      SemverPartsOfSemver(0, b, 0, false);
      assert Semver(0, b, 0) + "" == Semver(0, b, 0);
    } else {
      assert r[0] == NatToString(0)[0] == '0';
      SemverPartsOfSemver(0, 0, c, false);
      assert Semver(0, 0, c) + "" == Semver(0, 0, c);
    }
  }

  /** A version without exactly two dots is not semver and is kept as it is. */
  lemma {:induction false} GenerateKeepsOtherDots(version: string)
    requires Count(version, '.') != 2
    ensures GeneratePackageVersion(version) == Ok(version)
  {
    if version != [] && version[|version| - 1] == '\n' {
      var core := version[..|version| - 1];
      assert version == core + ['\n'];
      assert multiset(version) == multiset(core) + multiset(['\n']);
      SplitCount(core, '.');
    } else {
      SplitCount(version, '.');
    }
  }

  /** A component with a leading zero is not semver, so the version is kept as it is. */
  lemma {:induction false} GenerateKeepsLeadingZero(major: string, minor: string, patch: string)
    requires |major| > 1 && major[0] == '0' && IsDigits(major)
    requires IsDigits(minor) && IsDigits(patch) && |patch| > 0
    ensures GeneratePackageVersion(major + "." + minor + "." + patch) == Ok(major + "." + minor + "." + patch)
  {
    var v := major + "." + minor + "." + patch;
    assert forall t: string :: IsDigits(t) ==> '.' !in t;
    assert v[|v| - 1] == patch[|patch| - 1];
    assert v == major + ['.'] + (minor + ['.'] + patch);
    SplitAtFirst(major, minor + ['.'] + patch, '.');
    SplitAtFirst(minor, patch, '.');
    assert Split(patch, '.') == [patch];
    assert !SemverPart(major) by { assert major != "0"; }
  }
}
