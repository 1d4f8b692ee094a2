/** The Python `str` operations the core relies on, over `seq<char>`. Character classes are ASCII
    except `IsSpace`, which is Python's `str.isspace`. */
module Text {

  predicate IsDigit(c: char) { '0' <= c <= '9' }

  /** `str.isdigit` on ASCII text: non-empty and made of digits only. */
  predicate IsDigits(s: string) {
    |s| > 0 && forall i :: 0 <= i < |s| ==> IsDigit(s[i])
  }

  predicate NoDigits(s: string) {
    forall i :: 0 <= i < |s| ==> !IsDigit(s[i])
  }

  predicate IsAsciiLetter(c: char) { 'a' <= c <= 'z' || 'A' <= c <= 'Z' }

  /** Python's `str.isspace`, the class removed by `strip()` and split on by `split()`. */
  predicate IsSpace(c: char) {
    || c == ' ' || '\t' <= c <= '\r' || '\U{1C}' <= c <= '\U{1F}'
    || c == '\U{85}' || c == '\U{A0}' || c == '\U{1680}' || '\U{2000}' <= c <= '\U{200A}'
    || c == '\U{2028}' || c == '\U{2029}' || c == '\U{202F}' || c == '\U{205F}' || c == '\U{3000}'
  }

  /** `s.lstrip()`. */
  function LStrip(s: string): (r: string)
    ensures |r| <= |s| && r == s[|s| - |r|..]
    ensures r == [] || !IsSpace(r[0])
    ensures forall i :: 0 <= i < |s| - |r| ==> IsSpace(s[i])
  {
    if s != [] && IsSpace(s[0]) then LStrip(s[1..]) else s
  }

  /** `s.rstrip()`. */
  function RStrip(s: string): (r: string)
    ensures |r| <= |s| && r == s[..|r|]
    ensures r == [] || !IsSpace(r[|r| - 1])
    ensures forall i :: |r| <= i < |s| ==> IsSpace(s[i])
  {
    if s != [] && IsSpace(s[|s| - 1]) then RStrip(s[..|s| - 1]) else s
  }

  /** `r` is the slice of `s` at offset `i`, with only whitespace before and after it. */
  predicate TrimmedAt(s: string, r: string, i: nat) {
    && i + |r| <= |s| && r == s[i..i + |r|]
    && (forall k :: 0 <= k < i ==> IsSpace(s[k]))
    && (forall k :: i + |r| <= k < |s| ==> IsSpace(s[k]))
  }

  /** Concatenation regroups freely; callers name it where the solver needs the step. */
  lemma AppendAssoc<T>(a: seq<T>, b: seq<T>, c: seq<T>)
    ensures a + (b + c) == (a + b) + c
  {
  }

  /** `s.strip()`: the slice of `s` left once the whitespace at both ends is cut off. */
  function Strip(s: string): (r: string)
    ensures |r| <= |s|
    ensures r == [] || (!IsSpace(r[0]) && !IsSpace(r[|r| - 1]))
  {
    RStrip(LStrip(s))
  }

  /** Cutting leading whitespace, then trailing whitespace, leaves a trimmed slice. */
  lemma TrimmedBoth(s: string, l: string, r: string)
    requires |l| <= |s| && l == s[|s| - |l|..] && forall k :: 0 <= k < |s| - |l| ==> IsSpace(s[k])
    requires |r| <= |l| && r == l[..|r|] && forall k :: |r| <= k < |l| ==> IsSpace(l[k])
    ensures TrimmedAt(s, r, |s| - |l|)
  {
    var i := |s| - |l|;
    forall k | i + |r| <= k < |s| ensures IsSpace(s[k]) {
      assert s[k] == l[k - i];
    }
    assert r == s[i..i + |r|];
  }

  /** `strip()` cuts only whitespace: its result is the slice of `s` after the leading
      whitespace that `lstrip()` removes, and everything outside that slice is whitespace. */
  lemma StripTrimmed(s: string)
    ensures TrimmedAt(s, Strip(s), |s| - |LStrip(s)|)
  {
    TrimmedBoth(s, LStrip(s), Strip(s));
  }

  /** A string without whitespace at either end is its own `strip()`. */
  lemma StripUnchanged(s: string)
    requires s == [] || (!IsSpace(s[0]) && !IsSpace(s[|s| - 1]))
    ensures Strip(s) == s
  {
    assert LStrip(s) == s;
  }

  /** `s.lstrip(chars)`. */
  function LStripChars(s: string, chars: set<char>): (r: string)
    ensures |r| <= |s| && r == s[|s| - |r|..]
    ensures r == [] || r[0] !in chars
    ensures forall i :: 0 <= i < |s| - |r| ==> s[i] in chars
  {
    if s != [] && s[0] in chars then LStripChars(s[1..], chars) else s
  }

  /** `s.rstrip(chars)`. */
  function RStripChars(s: string, chars: set<char>): (r: string)
    ensures |r| <= |s| && r == s[..|r|]
    ensures r == [] || r[|r| - 1] !in chars
    ensures forall i :: |r| <= i < |s| ==> s[i] in chars
  {
    if s != [] && s[|s| - 1] in chars then RStripChars(s[..|s| - 1], chars) else s
  }

  /** `s.strip(chars)`. */
  function StripChars(s: string, chars: set<char>): string {
    RStripChars(LStripChars(s, chars), chars)
  }

  /** The index of the first occurrence of `c` in `s`. */
  function IndexOf(s: string, c: char): (i: nat)
    requires c in s
    ensures i < |s| && s[i] == c && c !in s[..i]
  {
    if s[0] == c then 0 else 1 + IndexOf(s[1..], c)
  }

  /** `sep.join(parts)`. */
  function JoinWith(parts: seq<string>, sep: string): string {
    if |parts| == 0 then ""
    else if |parts| == 1 then parts[0]
    else parts[0] + sep + JoinWith(parts[1..], sep)
  }

  /** `"".join(parts)`. */
  function Concat(parts: seq<string>): string {
    if parts == [] then "" else parts[0] + Concat(parts[1..])
  }

  lemma {:induction false} ConcatAppend(a: seq<string>, b: seq<string>)
    ensures Concat(a + b) == Concat(a) + Concat(b)
  {
    if a != [] {
      assert (a + b)[1..] == a[1..] + b;
      ConcatAppend(a[1..], b);
    } else {
      assert a + b == b;
    }
  }

  /** `s.split(sep)` for a one-character separator: the pieces between separators, which
      joined back with the separator give `s`. */
  function Split(s: string, sep: char): (r: seq<string>)
    ensures |r| >= 1
    ensures forall i :: 0 <= i < |r| ==> sep !in r[i]
    ensures JoinWith(r, [sep]) == s
    decreases |s|
  {
    if sep !in s then [s]
    else
      var i := IndexOf(s, sep);
      var rest := Split(s[i + 1..], sep);
      assert s == s[..i] + [sep] + s[i + 1..];
      [s[..i]] + rest
  }

  /** Splitting at a first separator peels off the text before it. */
  lemma SplitAtFirst(x: string, y: string, sep: char)
    requires sep !in x
    ensures Split(x + [sep] + y, sep) == [x] + Split(y, sep)
  {
    var s := x + [sep] + y;
    var i := IndexOf(s, sep);
    assert forall j :: 0 <= j < |x| ==> s[j] == x[j];
    assert forall j :: |x| < j <= |s| ==> s[..j][|x|] == sep;
    assert i == |x|;
    assert s[..i] == x;
    assert s[i + 1..] == y;
  }

  /** A non-empty piece with no newline except possibly its last character. */
  predicate IsLine(piece: string) {
    piece != [] && forall k :: 0 <= k < |piece| - 1 ==> piece[k] != '\n'
  }

  /** A non-empty piece whose last character is a newline. */
  predicate EndsLine(piece: string) {
    piece != [] && piece[|piece| - 1] == '\n'
  }

  /** `s.splitlines(keepends=True)` as `readlines()` does it: pieces that end just after each
      newline, with a last piece without one when `s` does not end in a newline. */
  function Lines(s: string): (r: seq<string>)
    ensures forall i :: 0 <= i < |r| ==> r[i] != []
    decreases |s|
  {
    if s == [] then []
    else if '\n' !in s then [s]
    else
      var i := IndexOf(s, '\n');
      [s[..i + 1]] + Lines(s[i + 1..])
  }

  /** `readlines()` cuts just after each newline: every line but the last ends with one, and no
      line has one anywhere else. */
  lemma {:induction false} LinesAreLines(s: string)
    ensures forall i :: 0 <= i < |Lines(s)| ==> IsLine(Lines(s)[i])
    ensures forall i :: 0 <= i < |Lines(s)| - 1 ==> EndsLine(Lines(s)[i])
    decreases |s|
  {
    if s != [] && '\n' in s {
      var i := IndexOf(s, '\n');
      LinesAreLines(s[i + 1..]);
      var head, rest := s[..i + 1], Lines(s[i + 1..]);
      assert Lines(s) == [head] + rest;
      assert IsLine(head) by {
        forall k | 0 <= k < |head| - 1 ensures head[k] != '\n' {
          assert head[k] == s[..i][k];
        }
      }
      assert rest != [] ==> EndsLine(head);
      forall j | 1 <= j < |Lines(s)| ensures IsLine(Lines(s)[j]) && (j < |Lines(s)| - 1 ==> EndsLine(Lines(s)[j])) {
        assert Lines(s)[j] == rest[j - 1];
      }
    }
  }

  /** Writing back what `readlines()` read gives the file unchanged. */
  lemma {:induction false} LinesConcat(s: string)
    ensures Concat(Lines(s)) == s
    decreases |s|
  {
    if s != [] && '\n' in s {
      var i := IndexOf(s, '\n');
      LinesConcat(s[i + 1..]);
      assert s == s[..i + 1] + s[i + 1..];
    }
  }

  /** The longest prefix of `s` with no whitespace. */
  function Word(s: string): (w: string)
    ensures |w| <= |s| && w == s[..|w|]
    ensures forall i :: 0 <= i < |w| ==> !IsSpace(w[i])
    ensures |w| == |s| || IsSpace(s[|w|])
  {
    if s == [] || IsSpace(s[0]) then []
    else
      var w := [s[0]] + Word(s[1..]);
      assert s == [s[0]] + s[1..];
      w
  }

  /** A non-empty string without whitespace. */
  predicate IsToken(w: string) {
    w != [] && forall j :: 0 <= j < |w| ==> !IsSpace(w[j])
  }

  /** `s.split()`: the maximal runs of non-whitespace characters. */
  function Tokens(s: string): seq<string>
    decreases |s|
  {
    if s == [] then []
    else if IsSpace(s[0]) then Tokens(s[1..])
    else
      var w := Word(s);
      [w] + Tokens(s[|w|..])
  }

  /** Every piece `split()` returns is a non-empty run without whitespace. */
  lemma {:induction false} TokensAreTokens(s: string)
    ensures forall i :: 0 <= i < |Tokens(s)| ==> IsToken(Tokens(s)[i])
    decreases |s|
  {
    if s != [] {
      if IsSpace(s[0]) {
        TokensAreTokens(s[1..]);
      } else {
        var w := Word(s);
        var rest := Tokens(s[|w|..]);
        TokensAreTokens(s[|w|..]);
        assert Tokens(s) == [w] + rest;
        assert IsToken(w);
        forall i | 1 <= i < |rest| + 1 ensures IsToken(([w] + rest)[i]) {
          assert ([w] + rest)[i] == rest[i - 1];
        }
      }
    }
  }

  /** `s.count(c)` for one character. */
  function Count(s: string, c: char): (n: nat)
    ensures n == multiset(s)[c]
  {
    if s == [] then 0
    else
      assert s == [s[0]] + s[1..];
      (if s[0] == c then 1 else 0) + Count(s[1..], c)
  }

  predicate StartsWith(s: string, prefix: string) {
    |prefix| <= |s| && s[..|prefix|] == prefix
  }

  predicate EndsWith(s: string, suffix: string) {
    |suffix| <= |s| && s[|s| - |suffix|..] == suffix
  }

  /** `s.removeprefix(prefix)`. */
  function RemovePrefix(s: string, prefix: string): (r: string)
    ensures StartsWith(s, prefix) ==> s == prefix + r
    ensures !StartsWith(s, prefix) ==> r == s
  {
    if StartsWith(s, prefix) then s[|prefix|..] else s
  }

  /** `sub in s`. */
  predicate Contains(s: string, sub: string)
    decreases |s|
  {
    StartsWith(s, sub) || (s != [] && Contains(s[1..], sub))
  }

  /** `s.replace(pat, rep)`: every non-overlapping occurrence of `pat`, scanning left to right. */
  function Replace(s: string, pat: string, rep: string): string
    requires |pat| > 0
    decreases |s|
  {
    if |s| < |pat| then s
    else if s[..|pat|] == pat then rep + Replace(s[|pat|..], pat, rep)
    else [s[0]] + Replace(s[1..], pat, rep)
  }

  lemma {:induction false} ReplaceAbsent(s: string, pat: string, rep: string)
    requires |pat| > 0 && !Contains(s, pat)
    ensures Replace(s, pat, rep) == s
    decreases |s|
  {
    if |s| >= |pat| {
      assert s[..|pat|] != pat;
      ReplaceAbsent(s[1..], pat, rep);
      assert s == [s[0]] + s[1..];
    }
  }

  /** A string that contains `sub` is at least as long as `sub`. */
  lemma {:induction false} ContainsLength(s: string, sub: string)
    requires Contains(s, sub)
    ensures |sub| <= |s|
    decreases |s|
  {
    if !StartsWith(s, sub) {
      ContainsLength(s[1..], sub);
    }
  }

  /** `sub` found at offset `k` of `s` is in `s`. */
  lemma {:induction false} ContainsAt(s: string, sub: string, k: nat)
    requires k + |sub| <= |s| && s[k..k + |sub|] == sub
    ensures Contains(s, sub)
    decreases k
  {
    if k > 0 {
      assert s[1..][k - 1..k - 1 + |sub|] == sub;
      ContainsAt(s[1..], sub, k - 1);
    }
  }

  /** With a shorter replacement the text never grows, and shrinks once the pattern occurs. */
  lemma {:induction false} ReplaceShorter(s: string, pat: string, rep: string)
    requires 0 < |pat| && |rep| < |pat|
    ensures |Replace(s, pat, rep)| <= |s|
    ensures Contains(s, pat) ==> |Replace(s, pat, rep)| < |s|
    decreases |s|
  {
    if Contains(s, pat) { ContainsLength(s, pat); }
    if |s| >= |pat| {
      if s[..|pat|] == pat {
        ReplaceShorter(s[|pat|..], pat, rep);
      } else {
        ReplaceShorter(s[1..], pat, rep);
      }
    }
  }

  /** With a longer replacement the text never shrinks, and grows once the pattern occurs. */
  lemma {:induction false} ReplaceLonger(s: string, pat: string, rep: string)
    requires 0 < |pat| < |rep|
    ensures |Replace(s, pat, rep)| >= |s|
    ensures Contains(s, pat) ==> |Replace(s, pat, rep)| > |s|
    decreases |s|
  {
    if Contains(s, pat) { ContainsLength(s, pat); }
    if |s| >= |pat| {
      if s[..|pat|] == pat {
        ReplaceLonger(s[|pat|..], pat, rep);
      } else {
        ReplaceLonger(s[1..], pat, rep);
      }
    }
  }

  /** Replacing a pattern that occurs by a different string always changes the text. */
  lemma {:induction false} ReplaceChanges(s: string, pat: string, rep: string)
    requires |pat| > 0 && Contains(s, pat) && pat != rep
    ensures Replace(s, pat, rep) != s
    decreases |s|
  {
    ContainsLength(s, pat);
    if |rep| < |pat| {
      ReplaceShorter(s, pat, rep);
    } else if |rep| > |pat| {
      ReplaceLonger(s, pat, rep);
    } else if s[..|pat|] == pat {
      var r := Replace(s, pat, rep);
      assert r == rep + Replace(s[|pat|..], pat, rep);
      assert r[..|rep|] == rep;
    } else {
      ReplaceChanges(s[1..], pat, rep);
      assert Replace(s, pat, rep) == [s[0]] + Replace(s[1..], pat, rep);
      assert s == [s[0]] + s[1..];
    }
  }

  /** A slice of a suffix is a slice of the whole. */
  lemma SliceOfSuffix(s: string, a: nat, j: nat, n: nat)
    requires a + j + n <= |s|
    ensures s[a..][j..j + n] == s[a + j..a + j + n]
  {
  }

  /** A slice of a slice is a slice of the whole. */
  lemma SliceOfSlice(s: string, a: nat, b: nat, j: nat, n: nat)
    requires a <= b <= |s| && j + n <= b - a
    ensures s[a..b][j..j + n] == s[a + j..a + j + n]
  {
    var x := s[a..b][j..j + n];
    assert forall t :: 0 <= t < n ==> x[t] == s[a + j + t];
  }

  /** Dropping the last character of `a + t`, for a non-empty `t`, drops it from `t`. */
  lemma DropLast(a: string, t: string)
    requires t != []
    ensures (a + t)[..|a + t| - 1] == a + t[..|t| - 1]
    ensures EndsWith(a + t, "\n") <==> EndsWith(t, "\n")
  {
    assert (a + t)[|a + t| - 1] == t[|t| - 1];
  }

  /** Every piece `split()` returns occurs in the string, at the offset returned. */
  lemma {:induction false} TokenOccurs(s: string, i: nat) returns (k: nat)
    requires i < |Tokens(s)|
    ensures k + |Tokens(s)[i]| <= |s| && s[k..k + |Tokens(s)[i]|] == Tokens(s)[i]
    decreases |s|
  {
    if IsSpace(s[0]) {
      var j := TokenOccurs(s[1..], i);
      k := j + 1;
      SliceOfSuffix(s, 1, j, |Tokens(s)[i]|);
    } else {
      var w := Word(s);
      assert Tokens(s) == [w] + Tokens(s[|w|..]);
      if i == 0 {
        k := 0;
      } else {
        var j := TokenOccurs(s[|w|..], i - 1);
        assert Tokens(s)[i] == Tokens(s[|w|..])[i - 1];
        k := |w| + j;
        SliceOfSuffix(s, |w|, j, |Tokens(s)[i]|);
      }
    }
  }

  /** `s.split(sep)` has one more piece than `s` has separators. */
  lemma {:induction false} SplitCount(s: string, sep: char)
    ensures |Split(s, sep)| == Count(s, sep) + 1
    decreases |s|
  {
    if sep in s {
      var i := IndexOf(s, sep);
      var before, after := s[..i], s[i + 1..];
      SplitCount(after, sep);
      assert Split(s, sep) == [before] + Split(after, sep);
      assert s == before + [sep] + after;
      assert multiset(s)[sep] == multiset(before)[sep] + 1 + multiset(after)[sep];
      assert multiset(before)[sep] == 0;
    }
  }

  /** `s.lower()` on ASCII letters. */
  function Lower(s: string): (r: string)
    ensures |r| == |s|
    ensures forall i :: 0 <= i < |s| ==> r[i] == if 'A' <= s[i] <= 'Z' then (s[i] as int + 32) as char else s[i]
  {
    if s == [] then [] else [if 'A' <= s[0] <= 'Z' then (s[0] as int + 32) as char else s[0]] + Lower(s[1..])
  }

  /** `s.replace(a, b)` for single characters. */
  function ReplaceChar(s: string, a: char, b: char): (r: string)
    ensures |r| == |s|
    ensures forall i :: 0 <= i < |s| ==> r[i] == if s[i] == a then b else s[i]
  {
    if s == [] then [] else [if s[0] == a then b else s[0]] + ReplaceChar(s[1..], a, b)
  }

  /** `n` space characters: `' ' * n`. */
  function Spaces(n: nat): (r: string)
    ensures |r| == n && forall i :: 0 <= i < n ==> r[i] == ' '
  {
    if n == 0 then [] else [' '] + Spaces(n - 1)
  }

  function DigitValue(c: char): nat
    requires IsDigit(c)
  {
    c as int - '0' as int
  }

  function DigitChar(d: nat): (c: char)
    requires d < 10
    ensures IsDigit(c) && DigitValue(c) == d
  {
    ('0' as int + d) as char
  }

  /** The value of a string of decimal digits (leading zeros allowed): `int(s)`. */
  function DigitsValue(s: string): nat
    requires forall i :: 0 <= i < |s| ==> IsDigit(s[i])
  {
    if s == [] then 0 else DigitsValue(s[..|s| - 1]) * 10 + DigitValue(s[|s| - 1])
  }

  /** `str(n)`: decimal digits without leading zeros. */
  function NatToString(n: nat): (s: string)
    ensures IsDigits(s)
    ensures DigitsValue(s) == n
    ensures s[0] == '0' ==> n == 0 && s == "0"
  {
    if n < 10 then [DigitChar(n)]
    else
      var s := NatToString(n / 10) + [DigitChar(n % 10)];
      assert s[..|s| - 1] == NatToString(n / 10);
      s
  }
}
