/** The optional dependency groups of `pyproject.toml` that `install_updates` of
    req_update/python.py installs: the `NAME = [` lines of the `[project.optional-dependencies]`
    table. */
module PyprojectGroups {
  import opened Wrappers
  import opened Text
  import opened Shell
  import opened RequirementLine

  /** The header of the optional dependency table. */
  const OptionalHeader: string := "[project.optional-dependencies]"


  predicate IsGroupChar(c: char) { IsAsciiLetter(c) || IsDigit(c) || c == '_' }

  predicate IsGroupName(g: string) { g != [] && forall k :: 0 <= k < |g| ==> IsGroupChar(g[k]) }

  /** `^([a-zA-Z0-9_]+) = \[` matched on a raw line: the group name. */
  function GroupName(line: string): (r: Option<string>)
    ensures r.Some? ==> r.value != [] && (forall k :: 0 <= k < |r.value| ==> IsGroupChar(r.value[k])) &&
                        StartsWith(line, r.value + " = [")
  {
    var n := Span(line, 0, IsGroupChar);
    SpanRun(line, 0, IsGroupChar);
    if n > 0 && StartsWith(line[n..], " = [") then
      assert line[..n + 4] == line[..n] + line[n..][..4];
      Some(line[..n])
    else None
  }

  /** The header line of the table, whatever whitespace surrounds it. */
  predicate IsHeader(line: string) { Strip(line) == OptionalHeader }

  /** A line that opens a TOML table: `line[0] == '['`. */
  predicate OpensTable(line: string) { line != [] && line[0] == '[' }

  /** The group a line declares, if any. */
  function GroupsOf(line: string): (r: seq<string>)
    ensures |r| <= 1
    ensures forall i :: 0 <= i < |r| ==> IsGroupName(r[i])
  {
    if GroupName(line).Some? then [GroupName(line).value] else []
  }

  /** The groups the scan of `install_updates` finds in `lines`: lines before the header are
      skipped, header lines are skipped, a line starting with `[` ends the table. */
  function ScanGroups(lines: seq<string>, inTable: bool): seq<string> {
    if lines == [] then []
    else if IsHeader(lines[0]) then ScanGroups(lines[1..], true)
    else if !inTable then ScanGroups(lines[1..], false)
    else if OpensTable(lines[0]) then []
    else GroupsOf(lines[0]) + ScanGroups(lines[1..], true)
  }

  function OptionalGroups(lines: seq<string>): seq<string> { ScanGroups(lines, false) }

  /** A line declaring a group is not the header: it starts with a name character, so its
      stripped text starts with that character and not with `[`. */
  lemma GroupLineIsNoHeader(line: string)
    ensures GroupName(line).Some? ==> !IsHeader(line)
  {
    if GroupName(line).Some? {
      var g := GroupName(line).value;
      assert line[0] == g[0] && IsGroupChar(line[0]);
      assert LStrip(line) == line;
      assert Strip(line)[0] == line[0];
    }
  }

  /** Inside the table, a line that does not open another table adds its group, if any. */
  lemma TableStep(lines: seq<string>)
    requires lines != [] && !OpensTable(lines[0])
    ensures ScanGroups(lines, true) == GroupsOf(lines[0]) + ScanGroups(lines[1..], true)
  {
    GroupLineIsNoHeader(lines[0]);
  }

  /** One step of the scan, at line `i`. */
  lemma ScanAt(lines: seq<string>, i: nat, inTable: bool)
    requires i < |lines|
    ensures ScanGroups(lines[i..], inTable) ==
            if IsHeader(lines[i]) then ScanGroups(lines[i + 1..], true)
            else if !inTable then ScanGroups(lines[i + 1..], false)
            else if OpensTable(lines[i]) then []
            else GroupsOf(lines[i]) + ScanGroups(lines[i + 1..], true)
  {
    assert lines[i..][0] == lines[i];
    assert lines[i..][1..] == lines[i + 1..];
  }

  /** Without a header line there are no groups. */
  lemma {:induction false} NoHeaderNoGroups(lines: seq<string>)
    requires forall k :: 0 <= k < |lines| ==> !IsHeader(lines[k])
    ensures OptionalGroups(lines) == []
  {
    if lines != [] {
      NoHeaderNoGroups(lines[1..]);
    }
  }

  /** Everything before the first header is ignored. */
  lemma {:induction false} GroupsAfterHeader(before: seq<string>, header: string, after: seq<string>)
    requires forall k :: 0 <= k < |before| ==> !IsHeader(before[k])
    requires IsHeader(header)
    ensures OptionalGroups(before + [header] + after) == ScanGroups(after, true)
  {
    var s := before + [header] + after;
    if before != [] {
      assert s[0] == before[0];
      assert s[1..] == before[1..] + [header] + after;
      GroupsAfterHeader(before[1..], header, after);
    } else {
      assert s[0] == header;
      assert s[1..] == after;
    }
  }

  /** A line that opens another table ends the scan inside the optional table. */
  lemma TableStops(next: string, rest: seq<string>)
    requires OpensTable(next) && !IsHeader(next)
    ensures ScanGroups([next] + rest, true) == []
  {
    assert ([next] + rest)[0] == next;
  }

  /** The first line of `table + [next] + rest` and the lines after it. */
  lemma Uncons(table: seq<string>, next: string, rest: seq<string>)
    requires table != []
    ensures (table + [next] + rest) != [] && (table + [next] + rest)[0] == table[0]
    ensures (table + [next] + rest)[1..] == table[1..] + [next] + rest
  { }

  /** No line of `table` opens another table, stated line by line from the front. */
  predicate NoneOpens(table: seq<string>) {
    table == [] || (!OpensTable(table[0]) && NoneOpens(table[1..]))
  }

  lemma {:induction false} NoneOpensAll(table: seq<string>)
    requires forall k :: 0 <= k < |table| ==> !OpensTable(table[k])
    ensures NoneOpens(table)
  {
    if table != [] {
      forall k | 0 <= k < |table[1..]| ensures !OpensTable(table[1..][k]) {
        assert table[1..][k] == table[k + 1];
      }
      NoneOpensAll(table[1..]);
    }
  }

  /** Inside the table, a line that starts with `[` and is not the header ends the scan. */
  lemma TableEnds(table: seq<string>, next: string, rest: seq<string>)
    requires forall k :: 0 <= k < |table| ==> !OpensTable(table[k])
    requires OpensTable(next) && !IsHeader(next)
    ensures ScanGroups(table + [next] + rest, true) == ScanGroups(table, true)
  {
    NoneOpensAll(table);
    TableEndsFrom(table, next, rest);
  }

  lemma {:induction false} TableEndsFrom(table: seq<string>, next: string, rest: seq<string>)
    requires NoneOpens(table) && OpensTable(next) && !IsHeader(next)
    ensures ScanGroups(table + [next] + rest, true) == ScanGroups(table, true)
  {
    if table == [] {
      assert table + [next] + rest == [next] + rest;
      TableStops(next, rest);
    } else {
      Uncons(table, next, rest);
      TableStep(table + [next] + rest);
      TableEndsFrom(table[1..], next, rest);
      TableStep(table);
    }
  }

  /** Every group found is a name of `[a-zA-Z0-9_]` characters. */
  lemma {:induction false} GroupsAreNames(lines: seq<string>, inTable: bool)
    ensures forall i :: 0 <= i < |ScanGroups(lines, inTable)| ==> IsGroupName(ScanGroups(lines, inTable)[i])
  {
    if lines != [] {
      var rest := ScanGroups(lines[1..], true);
      GroupsAreNames(lines[1..], true);
      GroupsAreNames(lines[1..], false);
      if !IsHeader(lines[0]) && inTable && !OpensTable(lines[0]) {
        var here := GroupsOf(lines[0]);
        forall i | 0 <= i < |here + rest| ensures IsGroupName((here + rest)[i]) {
          if i >= |here| { assert (here + rest)[i] == rest[i - |here|]; }
        }
      }
    }
  }

  /** The scan of `install_updates` over the lines of `pyproject.toml`: skip to the header, then
      collect the name of every `NAME = [` line until a line opens another table. */
  method ScanOptionalGroups(lines: seq<string>) returns (groups: seq<string>)
    ensures groups == OptionalGroups(lines)
  {
    groups := [];
    var optionalDependencies := false;
    var i := 0;
    while i < |lines|
      invariant 0 <= i <= |lines|
      invariant OptionalGroups(lines) == groups + ScanGroups(lines[i..], optionalDependencies)
    {
      var line := lines[i];
      ScanAt(lines, i, optionalDependencies);
      if IsHeader(line) {
        optionalDependencies := true;
      } else if !optionalDependencies {
      } else if OpensTable(line) {
        break;
      } else {
        var group := GroupsOf(line);
        AppendAssoc(groups, group, ScanGroups(lines[i + 1..], true));
        groups := groups + group;
      }
      assert OptionalGroups(lines) == groups + ScanGroups(lines[i + 1..], optionalDependencies);
      i := i + 1;
    }
    if i == |lines| {
      assert lines[i..] == [];
    }
    assert groups + [] == groups;
  }

  function GroupCommand(group: string): Invocation {
    Invocation(["pip", "install", "-e", ".[" + group + "]"], None)
  }

  function GroupCommands(groups: seq<string>): (r: seq<Invocation>)
    ensures |r| == |groups| && forall k :: 0 <= k < |groups| ==> r[k] == GroupCommand(groups[k])
  {
    if groups == [] then [] else [GroupCommand(groups[0])] + GroupCommands(groups[1..])
  }

  lemma {:induction false} GroupCommandsAppend(a: seq<string>, b: seq<string>)
    ensures GroupCommands(a + b) == GroupCommands(a) + GroupCommands(b)
  {
  }

  /** The commands for the first `i + 1` groups extend those for the first `i` by one. */
  lemma GroupCommandsStep(groups: seq<string>, i: nat)
    requires i < |groups|
    ensures GroupCommands(groups[..i + 1]) == GroupCommands(groups[..i]) + [GroupCommand(groups[i])]
  {
    GroupCommandsAppend(groups[..i], [groups[i]]);
    assert groups[..i + 1] == groups[..i] + [groups[i]];
  }
}
