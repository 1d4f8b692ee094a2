/** The requirement-line grammar of req_update/python.py as a hand-written matcher, and the
    rewrite of one line done by `write_dependency_update_lines`.

    A requirements line is `NAME OP VERSION SPACER` at the start of the text; a pyproject entry
    is `"NAME OP VERSION"SPACER` anywhere in it. The name and the operator are maximal runs;
    the version is an optional epoch `N!`, a release `N(.N)+`, an optional separator, an
    optional pre-release tag with digits and an optional post or dev tag with digits; the spacer
    is an optional `,?[ ]+#`. Each optional part is taken whenever it is present, which is the
    choice the regular-expression engine makes for this grammar: no alternative path can end a
    match where the greedy one cannot. */
module RequirementLine {
  import opened Text
  import opened Wrappers

  datatype FileType = Requirements | Pyproject

  /** The groups of one match, and the position just after it. */
  datatype Match = Match(name: string, operator: string, version: string, spacer: string, end: nat)

  predicate IsNameChar(c: char) { IsAsciiLetter(c) || IsDigit(c) || c == '-' || c == '_' }
  predicate IsOperatorChar(c: char) { c == '<' || c == '=' || c == '>' }
  predicate IsBlank(c: char) { c == ' ' }

  /** The end of the longest run of characters satisfying `p` that starts at `i`. */
  function Span(s: string, i: nat, p: char -> bool): (j: nat)
    requires i <= |s|
    ensures i <= j <= |s|
    decreases |s| - i
  {
    if i < |s| && p(s[i]) then Span(s, i + 1, p) else i
  }

  /** Every character of the run satisfies `p`, and the one after it does not. */
  lemma {:induction false} SpanRun(s: string, i: nat, p: char -> bool)
    requires i <= |s|
    ensures forall k :: i <= k < Span(s, i, p) ==> p(s[k])
    ensures Span(s, i, p) == |s| || !p(s[Span(s, i, p)])
    decreases |s| - i
  {
    if i < |s| && p(s[i]) { SpanRun(s, i + 1, p); }
  }

  /** A non-empty run ends with a character satisfying `p`. */
  lemma SpanLast(s: string, i: nat, p: char -> bool)
    requires i <= |s|
    ensures Span(s, i, p) > i ==> p(s[Span(s, i, p) - 1])
  {
    SpanRun(s, i, p);
  }

  /** `c` at position `k`. */
  predicate At(s: string, k: nat, c: char) { k < |s| && s[k] == c }

  /** `w` at position `k`. */
  predicate Has(s: string, k: nat, w: string)
    ensures Has(s, k, w) && w != [] ==> k + |w| <= |s|
    decreases |w|
  {
    w == [] || (At(s, k, w[0]) && Has(s, k + 1, w[1..]))
  }

  /** `(\.\d+)*` from `i`. */
  function DotGroupsEnd(s: string, i: nat): (j: nat)
    requires i <= |s|
    ensures i <= j <= |s|
    decreases |s| - i
  {
    if At(s, i, '.') && i + 1 < |s| && IsDigit(s[i + 1]) then DotGroupsEnd(s, Span(s, i + 1, IsDigit)) else i
  }

  /** The pre-release tags in the order the alternation tries them. */
  const PreTags: seq<string> := ["alpha", "a", "beta", "b", "c", "rc", "rev", "r", "preview", "pre"]

  /** The end of the first of `tags` found at `i`, `i` when none is. */
  function TagEnd(s: string, i: nat, tags: seq<string>): (j: nat)
    requires i <= |s|
    ensures i <= j <= |s|
  {
    if tags == [] then i
    else if tags[0] != [] && Has(s, i, tags[0]) then i + |tags[0]|
    else TagEnd(s, i, tags[1..])
  }

  /** `(a(lpha)?|b(eta)?|c|r(c|ev)?|pre(view)?)` at `i`: the end of the tag, `i` when none. */
  function PreTagEnd(s: string, i: nat): (j: nat)
    requires i <= |s|
    ensures i <= j <= |s|
  {
    TagEnd(s, i, PreTags)
  }

  /** `(\.?(post|dev)\d*)?` at `i`. */
  function PostDevEnd(s: string, i: nat): (j: nat)
    requires i <= |s|
    ensures i <= j <= |s|
  {
    var k := if At(s, i, '.') then i + 1 else i;
    if Has(s, k, "post") then Span(s, k + 4, IsDigit)
    else if Has(s, k, "dev") then Span(s, k + 3, IsDigit)
    else i
  }

  /** `(\d+!)?(\d+)(\.\d+)+` from `i`: the end of the release number, if one starts there. */
  function ReleaseEnd(s: string, i: nat): (r: Option<nat>)
    requires i <= |s|
    ensures r.Some? ==> i < r.value <= |s|
  {
    var e := Span(s, i, IsDigit);
    var a := if e > i && At(s, e, '!') then e + 1 else i;
    var d := Span(s, a, IsDigit);
    if d == a then None
    else
      var g := DotGroupsEnd(s, d);
      if g == d then None else Some(g)
  }

  /** `([\.\-\_])?((a(lpha)?|...)\d*)?(\.?(post|dev)\d*)?` from `g`. */
  function SuffixEnd(s: string, g: nat): (j: nat)
    requires g <= |s|
    ensures g <= j <= |s|
  {
    var f := if At(s, g, '.') || At(s, g, '-') || At(s, g, '_') then g + 1 else g;
    var t := PreTagEnd(s, f);
    var u := if t > f then Span(s, t, IsDigit) else f;
    PostDevEnd(s, u)
  }

  /** The end of the `version` group starting at `i`, if one starts there. */
  function VersionEnd(s: string, i: nat): (r: Option<nat>)
    requires i <= |s|
    ensures r.Some? ==> i < r.value <= |s|
  {
    match ReleaseEnd(s, i)
    case None => None
    case Some(g) => Some(SuffixEnd(s, g))
  }

  /** The end of the `spacer` group `(,?[ ]+\#)?` starting at `i`. */
  function SpacerEnd(s: string, i: nat): (j: nat)
    requires i <= |s|
    ensures i <= j <= |s|
  {
    var j := if At(s, i, ',') then i + 1 else i;
    var k := Span(s, j, IsBlank);
    if k > j && At(s, k, '#') then k + 1 else i
  }

  /** A `spacer` group: empty, or one or more spaces ending in `#`, optionally after a comma. */
  predicate IsSpacer(sp: string) {
    sp == [] ||
    (&& |sp| >= 2 && sp[|sp| - 1] == '#'
     && (sp[0] == ' ' || (sp[0] == ',' && |sp| >= 3))
     && forall k :: 1 <= k < |sp| - 1 ==> sp[k] == ' ')
  }

  /** The text a match covers, rebuilt from its groups. */
  function Spelling(kind: FileType, m: Match): string {
    match kind
    case Requirements => (m.name + m.operator + m.version) + m.spacer
    case Pyproject => "\"" + (m.name + m.operator + m.version) + "\"" + m.spacer
  }

  /** Where the `name`, `operator` and `version` groups end. */
  datatype Ends = Ends(name: nat, operator: nat, version: nat)

  /** The `name`, `operator` and `version` groups from `start`. */
  function GroupsAt(s: string, start: nat): (r: Option<Ends>)
    requires start <= |s|
    ensures r.Some? ==> start < r.value.name < r.value.operator < r.value.version <= |s|
  {
    var n := Span(s, start, IsNameChar);
    var o := Span(s, n, IsOperatorChar);
    if n == start || o == n then None
    else match VersionEnd(s, o)
      case None => None
      case Some(v) => Some(Ends(n, o, v))
  }

  /** The match with groups ending at `g`, and the spacer from `w`. */
  function Build(s: string, start: nat, g: Ends, w: nat): (m: Match)
    requires start <= g.name <= g.operator <= g.version <= w <= |s|
    ensures w <= m.end <= |s|
  {
    Match(s[start..g.name], s[g.name..g.operator], s[g.operator..g.version], s[w..SpacerEnd(s, w)], SpacerEnd(s, w))
  }

  /** The requirements pattern or the pyproject pattern, matched at `i`. */
  function MatchAt(kind: FileType, s: string, i: nat): (r: Option<Match>)
    requires i <= |s|
    ensures r.Some? ==> i < r.value.end <= |s|
  {
    match kind
    case Requirements =>
      (match GroupsAt(s, i)
       case None => None
       case Some(g) => Some(Build(s, i, g, g.version)))
    case Pyproject =>
      if !At(s, i, '"') then None
      else match GroupsAt(s, i + 1)
        case None => None
        case Some(g) => if !At(s, g.version, '"') then None else Some(Build(s, i + 1, g, g.version + 1))
  }

  lemma SpacerShape(s: string, w: nat)
    requires w <= |s|
    ensures IsSpacer(s[w..SpacerEnd(s, w)])
  {
    var j := if At(s, w, ',') then w + 1 else w;
    var k := Span(s, j, IsBlank);
    var sp := s[w..SpacerEnd(s, w)];
    SpanRun(s, j, IsBlank);
    if k > j && At(s, k, '#') {
      assert |sp| == k + 1 - w;
      forall q | 1 <= q < |sp| - 1 ensures sp[q] == ' ' {
        assert sp[q] == s[w + q];
      }
    }
  }

  /** The groups of a match: a non-empty name, a non-empty operator and a spacer. */
  predicate WellFormed(m: Match) {
    && m.name != [] && (forall k :: 0 <= k < |m.name| ==> IsNameChar(m.name[k]))
    && m.operator != [] && (forall k :: 0 <= k < |m.operator| ==> IsOperatorChar(m.operator[k]))
    && IsSpacer(m.spacer)
  }

  lemma BuildGroups(s: string, start: nat, g: Ends, w: nat, m: Match)
    requires start < g.name < g.operator < g.version <= w <= |s|
    requires forall k :: start <= k < g.name ==> IsNameChar(s[k])
    requires forall k :: g.name <= k < g.operator ==> IsOperatorChar(s[k])
    requires m == Build(s, start, g, w)
    ensures WellFormed(m)
  {
    SpacerShape(s, w);
  }

  lemma BuildSpelling(s: string, start: nat, g: Ends, w: nat, m: Match)
    requires start <= g.name <= g.operator <= g.version <= w <= |s|
    requires m == Build(s, start, g, w)
    ensures s[start..m.end] == (m.name + m.operator + m.version) + s[g.version..w] + m.spacer
  {
    SliceSplit(s, start, g.version, m.end);
    SliceSplit(s, g.version, w, m.end);
    SliceSplit(s, start, g.name, g.version);
    SliceSplit(s, g.name, g.operator, g.version);
  }

  lemma GroupsShape(s: string, start: nat)
    requires start <= |s| && GroupsAt(s, start).Some?
    ensures var g := GroupsAt(s, start).value;
            && (forall k :: start <= k < g.name ==> IsNameChar(s[k]))
            && (forall k :: g.name <= k < g.operator ==> IsOperatorChar(s[k]))
  {
    SpanRun(s, start, IsNameChar);
    SpanRun(s, Span(s, start, IsNameChar), IsOperatorChar);
  }

  /** The requirements pattern at `i`, given where its groups end. */
  lemma RequirementsAt(s: string, i: nat, g: Option<Ends>)
    requires i <= |s| && GroupsAt(s, i) == g
    ensures g.None? ==> MatchAt(Requirements, s, i).None?
    ensures g.Some? ==> MatchAt(Requirements, s, i) == Some(Build(s, i, g.value, g.value.version))
  {
  }

  /** The pyproject pattern at `i`, given where its groups end. */
  lemma PyprojectAt(s: string, i: nat, g: Option<Ends>)
    requires i < |s| && GroupsAt(s, i + 1) == g
    ensures !At(s, i, '"') || g.None? || !At(s, g.value.version, '"') ==> MatchAt(Pyproject, s, i).None?
    ensures At(s, i, '"') && g.Some? && At(s, g.value.version, '"') ==>
              MatchAt(Pyproject, s, i) == Some(Build(s, i + 1, g.value, g.value.version + 1))
  {
  }

  lemma RequirementsShape(s: string, i: nat)
    requires i <= |s| && MatchAt(Requirements, s, i).Some?
    ensures var m := MatchAt(Requirements, s, i).value;
            s[i..m.end] == Spelling(Requirements, m) && WellFormed(m)
  {
    var g := GroupsAt(s, i);
    RequirementsAt(s, i, g);
    var m := MatchAt(Requirements, s, i).value;
    GroupsShape(s, i);
    BuildGroups(s, i, g.value, g.value.version, m);
    BuildSpelling(s, i, g.value, g.value.version, m);
    assert s[g.value.version..g.value.version] == [];
  }

  lemma PyprojectShape(s: string, i: nat)
    requires i <= |s| && MatchAt(Pyproject, s, i).Some?
    ensures var m := MatchAt(Pyproject, s, i).value;
            s[i..m.end] == Spelling(Pyproject, m) && WellFormed(m)
  {
    PyprojectSpelled(s, i);
    PyprojectGroups(s, i);
  }

  lemma PyprojectSpelled(s: string, i: nat)
    requires i <= |s| && MatchAt(Pyproject, s, i).Some?
    ensures var m := MatchAt(Pyproject, s, i).value;
            s[i..m.end] == Spelling(Pyproject, m)
  {
    var g := GroupsAt(s, i + 1);
    PyprojectAt(s, i, g);
    QuotedSpelling(s, i, g.value, MatchAt(Pyproject, s, i).value);
  }

  lemma PyprojectGroups(s: string, i: nat)
    requires i <= |s| && MatchAt(Pyproject, s, i).Some?
    ensures WellFormed(MatchAt(Pyproject, s, i).value)
  {
    var g := GroupsAt(s, i + 1);
    PyprojectAt(s, i, g);
    GroupsShape(s, i + 1);
    BuildGroups(s, i + 1, g.value, g.value.version + 1, MatchAt(Pyproject, s, i).value);
  }

  lemma QuotedSpelling(s: string, i: nat, g: Ends, m: Match)
    requires i + 1 <= g.name <= g.operator <= g.version < |s|
    requires s[i] == '"' && s[g.version] == '"'
    requires m == Build(s, i + 1, g, g.version + 1)
    ensures s[i..m.end] == Spelling(Pyproject, m)
  {
    BuildSpelling(s, i + 1, g, g.version + 1, m);
    SliceSplit(s, i, i + 1, m.end);
    OneChar(s, i);
    OneChar(s, g.version);
    QuoteJoin(s[i..m.end], m.name + m.operator + m.version, m.spacer);
  }

  lemma OneChar(s: string, k: nat)
    requires k < |s|
    ensures s[k..k + 1] == [s[k]]
  {
  }

  lemma QuoteJoin(x: string, core: string, sp: string)
    requires x == "\"" + ((core + "\"") + sp)
    ensures x == "\"" + core + "\"" + sp
  {
    assert "\"" + ((core + "\"") + sp) == (("\"" + core) + "\"") + sp;
  }

  /** A match spells out its groups: a non-empty name, a non-empty operator and a spacer, with
      quotes around the first three in pyproject. */
  lemma MatchShape(kind: FileType, s: string, i: nat)
    requires i <= |s| && MatchAt(kind, s, i).Some?
    ensures var m := MatchAt(kind, s, i).value;
            s[i..m.end] == Spelling(kind, m) && WellFormed(m)
  {
    if kind == Requirements { RequirementsShape(s, i); } else { PyprojectShape(s, i); }
  }

  lemma SliceSplit(s: string, a: nat, b: nat, c: nat)
    requires a <= b <= c <= |s|
    ensures s[a..c] == s[a..b] + s[b..c]
  {
  }

  /** The replacement text `\g<1>\g<2>VERSION SPACER`, with quotes for pyproject. */
  function Replacement(kind: FileType, m: Match, version: string, spacer: string): string {
    Spelling(kind, Match(m.name, m.operator, version, spacer, 0))
  }

  /** `re.sub` of the pyproject pattern from position `i`: every non-overlapping match,
      scanning left to right, is replaced. */
  function SubAllFrom(s: string, i: nat, version: string, spacer: string): (r: string)
    requires i <= |s|
    ensures (forall k :: i <= k <= |s| ==> MatchAt(Pyproject, s, k).None?) ==> r == s[i..]
    decreases |s| - i
  {
    if i == |s| then []
    else match MatchAt(Pyproject, s, i)
      case Some(m) => Replacement(Pyproject, m, version, spacer) + SubAllFrom(s, m.end, version, spacer)
      case None =>
        assert s[i..] == [s[i]] + s[i + 1..];
        [s[i]] + SubAllFrom(s, i + 1, version, spacer)
  }

  /** `line_regex.sub(replacement, line)` on the raw line: the requirements pattern is anchored
      at the start, the pyproject pattern is not. */
  function Substitute(kind: FileType, line: string, version: string, spacer: string): string {
    match kind
    case Requirements =>
      (match MatchAt(Requirements, line, 0)
       case Some(m) => Replacement(Requirements, m, version, spacer) + line[m.end..]
       case None => line)
    case Pyproject => SubAllFrom(line, 0, version, spacer)
  }

  /** Package names compare with `_` read as `-` and letters lowercased. */
  function Normalize(name: string): string {
    Lower(ReplaceChar(name, '_', '-'))
  }

  /** The spacer for a line that had a comment: the `#` stays in its column when the new
      version leaves room for at least one space; otherwise the version and the spacer together
      are padded to one past a multiple of ten. */
  function CommentSpacer(oldVersion: string, oldSpacer: string, version: string): (sp: string)
    ensures |sp| >= 2 && sp[|sp| - 1] == '#' && forall k :: 0 <= k < |sp| - 1 ==> sp[k] == ' '
    ensures |oldVersion| + |oldSpacer| - |version| > 1 ==> |version| + |sp| == |oldVersion| + |oldSpacer|
    ensures |oldVersion| + |oldSpacer| - |version| <= 1 ==>
              |sp| == 11 - |version| % 10 && (|version| + |sp|) % 10 == 1
  {
    var spacing := |oldVersion| + |oldSpacer| - |version|;
    var adjusted := if spacing <= 1 then 10 - |version| % 10 + 1 else spacing;
    Spaces(adjusted - 1) + "#"
  }

  /** The spacer written after the new version: none when there was no comment, and for
      pyproject a comma in place of the first character, or a lone comma when there was no
      comment. */
  function NewSpacer(kind: FileType, oldVersion: string, oldSpacer: string, version: string): (sp: string)
    ensures kind == Requirements && oldSpacer == [] ==> sp == []
    ensures kind == Pyproject && oldSpacer == [] ==> sp == ","
    ensures kind == Requirements && oldSpacer != [] ==> sp == CommentSpacer(oldVersion, oldSpacer, version)
    ensures kind == Pyproject && oldSpacer != [] ==>
              |sp| == |CommentSpacer(oldVersion, oldSpacer, version)| && sp[0] == ',' &&
              sp[1..] == CommentSpacer(oldVersion, oldSpacer, version)[1..]
  {
    var base := if oldSpacer == [] then [] else CommentSpacer(oldVersion, oldSpacer, version);
    if kind == Pyproject then "," + (if base == [] then [] else base[1..]) else base
  }

  /** `write_dependency_update_lines` on one line: the new line when the stripped line matches
      a requirement for `dependency` and the substitution changes the raw line, `None` when the
      line is skipped. */
  function Rewrite(kind: FileType, line: string, dependency: string, version: string): (r: Option<string>)
    ensures r.Some? ==> r.value != line
    ensures r.Some? ==> MatchAt(kind, Strip(line), 0).Some? &&
                        Normalize(MatchAt(kind, Strip(line), 0).value.name) == Normalize(dependency)
  {
    match MatchAt(kind, Strip(line), 0)
    case None => None
    case Some(m) =>
      if Normalize(m.name) != Normalize(dependency) then None
      else
        var newLine := Substitute(kind, line, version, NewSpacer(kind, m.version, m.spacer, version));
        if newLine == line then None else Some(newLine)
  }

  // ---------------------------------------------------------------------------------------
  // Matching the stripped line and substituting in the raw line
  // ---------------------------------------------------------------------------------------

  /** `s` is `t` followed by whitespace only, and `t` does not end in whitespace. */
  predicate Trailing(s: string, t: string) {
    && |t| <= |s| && s[..|t|] == t
    && (forall k :: |t| <= k < |s| ==> IsSpace(s[k]))
    && (t == [] || !IsSpace(t[|t| - 1]))
  }

  lemma {:induction false} SpanLocal(s: string, t: string, i: nat, p: char -> bool)
    requires Trailing(s, t) && i <= |t|
    requires forall c :: p(c) ==> !IsSpace(c)
    ensures Span(s, i, p) == Span(t, i, p)
    decreases |t| - i
  {
    if i < |t| {
      assert s[i] == t[i];
      if p(t[i]) { SpanLocal(s, t, i + 1, p); }
    }
  }

  lemma AtLocal(s: string, t: string, k: nat, c: char)
    requires Trailing(s, t) && !IsSpace(c)
    ensures At(s, k, c) == At(t, k, c)
  {
    if k < |t| { assert s[k] == t[k]; }
  }

  lemma {:induction false} HasLocal(s: string, t: string, k: nat, w: string)
    requires Trailing(s, t)
    requires forall j :: 0 <= j < |w| ==> !IsSpace(w[j])
    ensures Has(s, k, w) == Has(t, k, w)
    decreases |w|
  {
    if w != [] {
      AtLocal(s, t, k, w[0]);
      HasLocal(s, t, k + 1, w[1..]);
    }
  }

  lemma {:induction false} DotGroupsLocal(s: string, t: string, i: nat)
    requires Trailing(s, t) && i <= |t|
    ensures DotGroupsEnd(s, i) == DotGroupsEnd(t, i)
    decreases |t| - i
  {
    AtLocal(s, t, i, '.');
    if At(t, i, '.') && i + 1 < |t| && IsDigit(t[i + 1]) {
      assert s[i + 1] == t[i + 1];
      SpanLocal(s, t, i + 1, IsDigit);
      DotGroupsLocal(s, t, Span(t, i + 1, IsDigit));
    } else if At(s, i, '.') && i + 1 < |s| {
      assert i + 1 >= |t| ==> IsSpace(s[i + 1]);
      assert i + 1 < |t| ==> s[i + 1] == t[i + 1];
    }
  }

  lemma {:induction false} TagLocal(s: string, t: string, i: nat, tags: seq<string>)
    requires Trailing(s, t) && i <= |t|
    requires forall k, j :: 0 <= k < |tags| && 0 <= j < |tags[k]| ==> IsAsciiLetter(tags[k][j])
    ensures TagEnd(s, i, tags) == TagEnd(t, i, tags)
  {
    if tags != [] {
      HasLocal(s, t, i, tags[0]);
      TagLocal(s, t, i, tags[1..]);
    }
  }

  lemma PreTagLocal(s: string, t: string, i: nat)
    requires Trailing(s, t) && i <= |t|
    ensures PreTagEnd(s, i) == PreTagEnd(t, i)
  {
    TagLocal(s, t, i, PreTags);
  }

  lemma PostDevLocal(s: string, t: string, i: nat)
    requires Trailing(s, t) && i <= |t|
    ensures PostDevEnd(s, i) == PostDevEnd(t, i)
  {
    AtLocal(s, t, i, '.');
    var k := if At(t, i, '.') then i + 1 else i;
    HasLocal(s, t, k, "post");
    HasLocal(s, t, k, "dev");
    if Has(t, k, "post") {
      SpanLocal(s, t, k + 4, IsDigit);
    } else if Has(t, k, "dev") {
      SpanLocal(s, t, k + 3, IsDigit);
    }
  }

  lemma ReleaseLocal(s: string, t: string, i: nat)
    requires Trailing(s, t) && i <= |t|
    ensures ReleaseEnd(s, i) == ReleaseEnd(t, i)
  {
    SpanLocal(s, t, i, IsDigit);
    var e := Span(t, i, IsDigit);
    AtLocal(s, t, e, '!');
    var a := if e > i && At(t, e, '!') then e + 1 else i;
    SpanLocal(s, t, a, IsDigit);
    DotGroupsLocal(s, t, Span(t, a, IsDigit));
  }

  lemma SuffixLocal(s: string, t: string, g: nat)
    requires Trailing(s, t) && g <= |t|
    ensures SuffixEnd(s, g) == SuffixEnd(t, g)
  {
    AtLocal(s, t, g, '.');
    AtLocal(s, t, g, '-');
    AtLocal(s, t, g, '_');
    var f := if At(t, g, '.') || At(t, g, '-') || At(t, g, '_') then g + 1 else g;
    PreTagLocal(s, t, f);
    var u := PreTagEnd(t, f);
    if u > f { SpanLocal(s, t, u, IsDigit); }
    PostDevLocal(s, t, if u > f then Span(t, u, IsDigit) else f);
  }

  lemma VersionLocal(s: string, t: string, i: nat)
    requires Trailing(s, t) && i <= |t|
    ensures VersionEnd(s, i) == VersionEnd(t, i)
  {
    ReleaseLocal(s, t, i);
    if ReleaseEnd(t, i).Some? {
      SuffixLocal(s, t, ReleaseEnd(t, i).value);
    }
  }

  /** A run that stops at `k` in `s` ends there. */
  lemma {:induction false} SpanStops(s: string, i: nat, k: nat, p: char -> bool)
    requires i <= k < |s| && !p(s[k]) && forall j :: i <= j < k ==> p(s[j])
    ensures Span(s, i, p) == k
    decreases k - i
  {
    if i < k { SpanStops(s, i + 1, k, p); }
  }

  lemma SpacerLocal(s: string, t: string, i: nat)
    requires Trailing(s, t) && i <= |t|
    ensures SpacerEnd(s, i) == SpacerEnd(t, i)
  {
    AtLocal(s, t, i, ',');
    var j := if At(t, i, ',') then i + 1 else i;
    var k := Span(t, j, IsBlank);
    SpanRun(t, j, IsBlank);
    if k < |t| {
      assert forall q :: j <= q <= k ==> s[q] == t[q];
      SpanStops(s, j, k, IsBlank);
      AtLocal(s, t, k, '#');
    } else {
      SpanLast(t, j, IsBlank);
      assert k == j;
      var ks := Span(s, j, IsBlank);
      assert !At(s, ks, '#') by {
        if ks < |s| { assert IsSpace(s[ks]); }
      }
    }
  }

  lemma GroupsLocal(s: string, t: string, start: nat)
    requires Trailing(s, t) && start <= |t|
    ensures GroupsAt(s, start) == GroupsAt(t, start)
  {
    SpanLocal(s, t, start, IsNameChar);
    var n := Span(t, start, IsNameChar);
    SpanLocal(s, t, n, IsOperatorChar);
    VersionLocal(s, t, Span(t, n, IsOperatorChar));
  }

  lemma BuildLocal(s: string, t: string, start: nat, g: Ends, w: nat)
    requires Trailing(s, t) && start <= g.name <= g.operator <= g.version <= w <= |t|
    ensures Build(s, start, g, w) == Build(t, start, g, w)
  {
    SpacerLocal(s, t, w);
    var e := SpacerEnd(t, w);
    assert forall q :: start <= q < e ==> s[q] == t[q];
    assert s[start..g.name] == t[start..g.name];
    assert s[g.name..g.operator] == t[g.name..g.operator];
    assert s[g.operator..g.version] == t[g.operator..g.version];
    assert s[w..e] == t[w..e];
  }

  /** Matching the requirements pattern in `s` and in `t` agree when `s` only adds trailing
      whitespace to `t`. */
  lemma RequirementsLocal(s: string, t: string, i: nat)
    requires Trailing(s, t) && i <= |t|
    ensures MatchAt(Requirements, s, i) == MatchAt(Requirements, t, i)
  {
    GroupsLocal(s, t, i);
    var g := GroupsAt(t, i);
    RequirementsAt(s, i, g);
    RequirementsAt(t, i, g);
    if g.Some? {
      BuildLocal(s, t, i, g.value, g.value.version);
    }
  }

  /** A line that does not start with whitespace is its stripped text followed by whitespace. */
  lemma StripTrailing(line: string)
    requires line == [] || !IsSpace(line[0])
    ensures Trailing(line, Strip(line))
  {
    assert LStrip(line) == line;
  }

  /** The substitution on the raw requirements line uses the same groups as the match on the
      stripped line, and keeps whatever follows the match (the comment and the newline). */
  lemma RequirementSubstitution(line: string, version: string, spacer: string)
    requires line == [] || !IsSpace(line[0])
    requires MatchAt(Requirements, Strip(line), 0).Some?
    ensures var m := MatchAt(Requirements, Strip(line), 0).value;
            Substitute(Requirements, line, version, spacer) == m.name + m.operator + version + spacer + line[m.end..]
  {
    StripTrailing(line);
    RequirementsLocal(line, Strip(line), 0);
  }

  /** A requirements line indented by whitespace is never rewritten: the substitution is
      anchored at the start of the raw line, where the name cannot begin. */
  lemma IndentedRequirementSkipped(line: string, dependency: string, version: string)
    requires line != [] && IsSpace(line[0])
    ensures Rewrite(Requirements, line, dependency, version).None?
  {
    assert Span(line, 0, IsNameChar) == 0;
  }

  /** A spacer without a comma is rebuilt as itself when the version keeps its length. */
  lemma SpacerRebuilt(oldVersion: string, sp: string)
    requires IsSpacer(sp) && ',' !in sp
    ensures NewSpacer(Requirements, oldVersion, sp, oldVersion) == sp
  {
    if sp != [] {
      var r := NewSpacer(Requirements, oldVersion, sp, oldVersion);
      assert |r| == |sp|;
      assert sp[0] != ',' by { assert sp[0] in sp; }
      forall k | 0 <= k < |sp| ensures r[k] == sp[k] {
      }
    }
  }

  /** A line is skipped when the substitution gives it back unchanged. */
  lemma RewriteSkips(kind: FileType, line: string, dependency: string, version: string, m: Match)
    requires MatchAt(kind, Strip(line), 0) == Some(m)
    requires Substitute(kind, line, version, NewSpacer(kind, m.version, m.spacer, version)) == line
    ensures Rewrite(kind, line, dependency, version).None?
  {
  }

  /** The raw line is its match's spelling followed by what comes after the match. */
  lemma RequirementsLineSplit(line: string, t: string, m: Match)
    requires Trailing(line, t) && MatchAt(Requirements, t, 0) == Some(m)
    ensures line == m.name + m.operator + m.version + m.spacer + line[m.end..]
  {
    RequirementsShape(t, 0);
    assert line[..m.end] == t[..m.end];
    assert line == line[..m.end] + line[m.end..];
  }

  /** Rewriting a requirements line to the version it already pins changes nothing, unless a
      comma before the comment has to give way to a space. */
  lemma SameVersionUnchanged(line: string, dependency: string)
    requires line == [] || !IsSpace(line[0])
    requires MatchAt(Requirements, Strip(line), 0).Some?
    requires ',' !in MatchAt(Requirements, Strip(line), 0).value.spacer
    ensures Rewrite(Requirements, line, dependency, MatchAt(Requirements, Strip(line), 0).value.version).None?
  {
    var m := MatchAt(Requirements, Strip(line), 0).value;
    RequirementsShape(Strip(line), 0);
    SpacerRebuilt(m.version, m.spacer);
    RequirementSubstitution(line, m.version, m.spacer);
    StripTrailing(line);
    RequirementsLineSplit(line, Strip(line), m);
    RewriteSkips(Requirements, line, dependency, m.version, m);
  }

  /** On a requirements line that does not start with whitespace, the rewrite keeps the name
      and the operator as written, puts in the new version and the new spacer, and keeps the
      rest of the line; it is skipped for another package or when nothing changes. */
  lemma RequirementRewritten(line: string, dependency: string, version: string)
    requires line == [] || !IsSpace(line[0])
    requires MatchAt(Requirements, Strip(line), 0).Some?
    ensures var m := MatchAt(Requirements, Strip(line), 0).value;
            var newLine := m.name + m.operator + version + NewSpacer(Requirements, m.version, m.spacer, version) + line[m.end..];
            Rewrite(Requirements, line, dependency, version) ==
              if Normalize(m.name) != Normalize(dependency) || newLine == line then None else Some(newLine)
  {
    var m := MatchAt(Requirements, Strip(line), 0).value;
    RequirementSubstitution(line, version, NewSpacer(Requirements, m.version, m.spacer, version));
  }

  /** A pyproject entry without a comment gets a comma after its closing quote, whatever
      followed the quote before. */
  lemma PyprojectCommaAdded(m: Match, version: string)
    requires m.spacer == []
    ensures Replacement(Pyproject, m, version, NewSpacer(Pyproject, m.version, m.spacer, version)) ==
            "\"" + m.name + m.operator + version + "\","
  {
  }
}
