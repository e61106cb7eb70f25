/** The Python string operations the engine relies on, with Python's
    semantics: `str.find`, `in`, `startswith`/`endswith`, `strip()`,
    `lower()`, `replace`, clamped slicing, `sep.join` and `str.split`. */
module Text {

  /** `p` occurs in `s` starting at index `i`. */
  predicate OccursAt(s: string, p: string, i: int)
  {
    0 <= i && i + |p| <= |s| && s[i..i + |p|] == p
  }

  predicate HasPrefix(s: string, p: string)
  {
    |p| <= |s| && s[..|p|] == p
  }

  predicate HasSuffix(s: string, p: string)
  {
    |p| <= |s| && s[|s| - |p|..] == p
  }

  /** Python's `s.find(p, from)`: the first occurrence at or after `from`,
      or -1 when there is none. */
  function Find(s: string, p: string, from: nat): (r: int)
    requires from <= |s|
    ensures r == -1 || (from <= r && OccursAt(s, p, r))
    ensures r == -1 ==> forall i :: from <= i ==> !OccursAt(s, p, i)
    ensures r != -1 ==> forall i :: from <= i < r ==> !OccursAt(s, p, i)
    decreases |s| - from
  {
    if from + |p| > |s| then -1
    else if OccursAt(s, p, from) then from
    else if from == |s| then -1
    else Find(s, p, from + 1)
  }

  /** Searching for one character: it is found at the first place at or
      after `from` where it occurs, and nowhere before that. */
  lemma FindChar(s: string, c: char, from: nat)
    requires from <= |s|
    ensures Find(s, [c], from) != -1 ==> s[Find(s, [c], from)] == c
    ensures forall i :: from <= i < |s| && (Find(s, [c], from) == -1 || i < Find(s, [c], from)) ==> s[i] != c
  {
    var r := Find(s, [c], from);
    if r != -1 {
      assert s[r..r + 1] == [s[r]];
    }
    forall i | from <= i < |s| && (r == -1 || i < r)
      ensures s[i] != c
    {
      assert !OccursAt(s, [c], i);
      assert s[i..i + 1] == [s[i]];
    }
  }

  /** A two-character pattern that occurs at `i` is its two characters. */
  lemma OccursAtPair(s: string, p: string, i: int)
    requires |p| == 2 && OccursAt(s, p, i)
    ensures s[i] == p[0] && s[i + 1] == p[1]
  {
    assert s[i..i + 2][0] == s[i] && s[i..i + 2][1] == s[i + 1];
  }

  /** Python's `p in s`. */
  predicate Contains(s: string, p: string)
  {
    Find(s, p, 0) != -1
  }

  /** `p in s` holds exactly when `p` occurs at some index of `s`. */
  lemma ContainsIff(s: string, p: string)
    ensures Contains(s, p) <==> exists i :: OccursAt(s, p, i)
  {
  }

  /** The characters `str.isspace()` accepts. */
  predicate IsSpace(c: char)
  {
    c == ' ' || ('\t' <= c <= '\r') || ('\U{1C}' <= c <= '\U{1F}')
    || c == '\U{85}' || c == '\U{A0}' || c == '\U{1680}'
    || ('\U{2000}' <= c <= '\U{200A}') || c == '\U{2028}' || c == '\U{2029}'
    || c == '\U{202F}' || c == '\U{205F}' || c == '\U{3000}'
  }

  /** The text without its leading whitespace (`lstrip`). */
  function StripStart(s: string): (r: string)
    ensures |r| <= |s|
  {
    if s != [] && IsSpace(s[0]) then StripStart(s[1..]) else s
  }

  /** The text without its trailing whitespace (`rstrip`). */
  function StripEnd(s: string): (r: string)
    ensures |r| <= |s|
  {
    if s != [] && IsSpace(s[|s| - 1]) then StripEnd(s[..|s| - 1]) else s
  }

  /** Python's `s.strip()`: `s` without surrounding whitespace. */
  function Strip(s: string): (r: string)
    ensures |r| <= |s|
  {
    StripEnd(StripStart(s))
  }

  /** `lstrip` removes exactly a run of leading whitespace. */
  lemma {:induction false} StripStartSpec(s: string)
    ensures var r := StripStart(s);
            && s[|s| - |r|..] == r
            && (forall i :: 0 <= i < |s| - |r| ==> IsSpace(s[i]))
            && (r == [] || !IsSpace(r[0]))
  {
    if s != [] && IsSpace(s[0]) {
      StripStartSpec(s[1..]);
    }
  }

  /** `rstrip` removes exactly a run of trailing whitespace. */
  lemma {:induction false} StripEndSpec(s: string)
    ensures var r := StripEnd(s);
            && s[..|r|] == r
            && (forall i :: |r| <= i < |s| ==> IsSpace(s[i]))
            && (r == [] || !IsSpace(r[|r| - 1]))
  {
    if s != [] && IsSpace(s[|s| - 1]) {
      StripEndSpec(s[..|s| - 1]);
    }
  }

  /** `s.strip()` is the slice of `s` between its leading and trailing
      whitespace, and it neither starts nor ends with whitespace. */
  lemma StripSpec(s: string)
    ensures var r, i := Strip(s), |s| - |StripStart(s)|;
            && (r == [] || (!IsSpace(r[0]) && !IsSpace(r[|r| - 1])))
            && i + |r| <= |s| && s[i..i + |r|] == r
            && (forall k :: 0 <= k < i ==> IsSpace(s[k]))
            && (forall k :: i + |r| <= k < |s| ==> IsSpace(s[k]))
  {
    var t := StripStart(s);
    var r := StripEnd(t);
    StripStartSpec(s);
    StripEndSpec(t);
    var i := |s| - |t|;
    assert s[i..i + |r|] == t[..|r|];
    forall k | i + |r| <= k < |s| ensures IsSpace(s[k]) {
      assert s[k] == t[k - i];
    }
  }

  function LowerChar(c: char): char
  {
    if 'A' <= c <= 'Z' then (c as int + 32) as char else c
  }

  /** Python's `s.lower()` on ASCII letters. */
  function Lower(s: string): string
  {
    seq(|s|, i requires 0 <= i < |s| => LowerChar(s[i]))
  }

  /** `s.lower().startswith(p)`, checked one character at a time. */
  predicate LowerStartsWith(s: string, p: string)
  {
    p == [] || (s != [] && LowerChar(s[0]) == p[0] && LowerStartsWith(s[1..], p[1..]))
  }

  /** The character-wise check agrees with lowering the whole text first. */
  lemma {:induction false} LowerStartsWithIff(s: string, p: string)
    ensures LowerStartsWith(s, p) <==> HasPrefix(Lower(s), p)
  {
    if p != [] && s != [] {
      LowerStartsWithIff(s[1..], p[1..]);
      assert Lower(s)[1..] == Lower(s[1..]);
      if HasPrefix(Lower(s), p) {
        assert Lower(s)[0] == p[0];
        assert Lower(s[1..])[..|p| - 1] == Lower(s)[..|p|][1..];
      }
      if LowerStartsWith(s, p) {
        assert Lower(s)[..|p|] == [Lower(s)[0]] + Lower(s[1..])[..|p| - 1];
      }
    }
  }

  /** Python's `s.replace(a, b)` for one-character `a` and `b`. */
  function ReplaceChar(s: string, a: char, b: char): (r: string)
    ensures |r| == |s|
    ensures forall i :: 0 <= i < |s| ==> r[i] == (if s[i] == a then b else s[i])
  {
    seq(|s|, i requires 0 <= i < |s| => if s[i] == a then b else s[i])
  }

  /** After replacing `a` by `b`, no `a` is left. */
  lemma ReplaceCharRemoves(s: string, a: char, b: char)
    requires a != b
    ensures a !in ReplaceChar(s, a, b)
    ensures forall i :: 0 <= i < |s| && s[i] != a ==> ReplaceChar(s, a, b)[i] == s[i]
  {
  }

  /** Python's `s.replace("_", r"\_")`. On a text without backslashes,
      every `_` of the result is preceded by a `\` and every `\` is
      followed by a `_`, so each `_` has become `\_`. */
  function EscapeUnderscores(s: string): (r: string)
    ensures |r| >= |s|
    ensures '\\' !in s ==> forall i :: 0 <= i < |r| && r[i] == '\\' ==> i + 1 < |r| && r[i + 1] == '_'
    ensures '\\' !in s ==> (r == [] || r[0] != '_') && forall i :: 0 < i < |r| && r[i] == '_' ==> r[i - 1] == '\\'
  {
    if s == [] then []
    else (if s[0] == '_' then "\\_" else [s[0]]) + EscapeUnderscores(s[1..])
  }

  /** Reads an escaped header back: every `\_` becomes `_`. */
  function UnescapeUnderscores(s: string): string
  {
    if s == [] then []
    else if |s| >= 2 && s[0] == '\\' && s[1] == '_' then "_" + UnescapeUnderscores(s[2..])
    else [s[0]] + UnescapeUnderscores(s[1..])
  }

  /** Escaping loses nothing when the text had no backslash to begin with. */
  lemma {:induction false} UnescapeEscape(s: string)
    requires '\\' !in s
    ensures UnescapeUnderscores(EscapeUnderscores(s)) == s
  {
    if s != [] {
      UnescapeEscape(s[1..]);
      var rest := EscapeUnderscores(s[1..]);
      if s[0] == '_' {
        assert EscapeUnderscores(s) == "\\_" + rest;
        assert ("\\_" + rest)[2..] == rest;
      } else {
        assert EscapeUnderscores(s) == [s[0]] + rest;
        assert ([s[0]] + rest)[1..] == rest;
      }
    }
  }

  /** Python's `s[:k] + a + s[k:]`; slicing clamps `k` to the length. */
  function InsertAt(s: string, k: nat, a: string): string
  {
    var m := if k <= |s| then k else |s|;
    s[..m] + a + s[m..]
  }

  /** Python's `sep.join(parts)` for a one-character separator. */
  function JoinWith(sep: char, parts: seq<string>): string
  {
    if |parts| == 0 then ""
    else if |parts| == 1 then parts[0]
    else parts[0] + [sep] + JoinWith(sep, parts[1..])
  }

  /** Python's `str.split` on every character that `isSep` accepts. */
  function SplitWhere(s: string, isSep: char -> bool): (r: seq<string>)
    ensures |r| >= 1
    ensures forall k, i :: 0 <= k < |r| && 0 <= i < |r[k]| ==> !isSep(r[k][i])
    decreases |s|
  {
    if s == [] then [""]
    else
      var rest := SplitWhere(s[1..], isSep);
      if isSep(s[0]) then [""] + rest else [[s[0]] + rest[0]] + rest[1..]
  }

  /** A separator between two texts splits them apart: the pieces of the
      whole are the pieces of the first followed by those of the second. */
  lemma {:induction false} SplitWhereSep(a: string, c: char, b: string, isSep: char -> bool)
    requires isSep(c)
    ensures SplitWhere(a + [c] + b, isSep) == SplitWhere(a, isSep) + SplitWhere(b, isSep)
    decreases |a|
  {
    if a == [] {
      assert a + [c] + b == [c] + b;
      assert ([c] + b)[1..] == b;
    } else {
      assert (a + [c] + b)[1..] == a[1..] + [c] + b;
      SplitWhereSep(a[1..], c, b, isSep);
    }
  }

  /** The line boundaries `str.splitlines()` breaks at. */
  predicate IsLineBoundary(c: char)
  {
    c == '\n' || c == '\r' || c == '\U{0B}' || c == '\U{0C}' || ('\U{1C}' <= c <= '\U{1E}')
    || c == '\U{85}' || c == '\U{2028}' || c == '\U{2029}'
  }

  /** A text holding no line boundary. */
  predicate IsLine(s: string)
  {
    forall i :: 0 <= i < |s| ==> !IsLineBoundary(s[i])
  }

  /** The index of the first line boundary of `s`, or `|s|`. */
  function LineEnd(s: string): (i: nat)
    ensures i <= |s|
    ensures forall k :: 0 <= k < i ==> !IsLineBoundary(s[k])
    ensures i < |s| ==> IsLineBoundary(s[i])
  {
    if s == [] then 0
    else if IsLineBoundary(s[0]) then 0
    else 1 + LineEnd(s[1..])
  }

  /** Python's `s.splitlines()`: the lines without their boundaries, where
      `\r\n` counts as one boundary and a final boundary opens no extra
      line. */
  function SplitLines(s: string): (r: seq<string>)
    ensures forall k :: 0 <= k < |r| ==> IsLine(r[k])
    decreases |s|
  {
    if s == [] then []
    else
      var i := LineEnd(s);
      if i == |s| then [s]
      else
        var next := if s[i] == '\r' && i + 1 < |s| && s[i + 1] == '\n' then i + 2 else i + 1;
        [s[..i]] + SplitLines(s[next..])
  }

  /** A text without line boundaries ends at its own end. */
  lemma {:induction false} LineEndOfLine(a: string, t: string)
    requires IsLine(a)
    ensures LineEnd(a + t) == |a| + LineEnd(t)
  {
    if a != [] {
      assert (a + t)[1..] == a[1..] + t;
      LineEndOfLine(a[1..], t);
    } else {
      assert a + t == t;
    }
  }

  /** Splitting undoes joining with `\n` when no line holds a boundary and
      the last line is not empty: one line comes back per line joined. */
  lemma {:induction false} SplitLinesJoin(lines: seq<string>)
    requires forall k :: 0 <= k < |lines| ==> IsLine(lines[k])
    requires lines != [] ==> lines[|lines| - 1] != ""
    ensures SplitLines(JoinWith('\n', lines)) == lines
  {
    if |lines| == 1 {
      SplitLinesSingle(lines[0]);
    } else if |lines| > 1 {
      var rest := JoinWith('\n', lines[1..]);
      assert JoinWith('\n', lines) == lines[0] + ['\n'] + rest;
      SplitLinesCons(lines[0], rest);
      assert forall k :: 0 <= k < |lines[1..]| ==> lines[1..][k] == lines[k + 1];
      SplitLinesJoin(lines[1..]);
      assert [lines[0]] + lines[1..] == lines;
    }
  }

  /** A non-empty text without boundaries is one line. */
  lemma SplitLinesSingle(a: string)
    requires a != [] && IsLine(a)
    ensures SplitLines(a) == [a]
  {
    LineEndOfLine(a, "");
    assert a + "" == a;
  }

  /** A line without boundaries followed by `\n` splits off as the first
      line. */
  lemma SplitLinesCons(a: string, rest: string)
    requires IsLine(a)
    ensures SplitLines(a + ['\n'] + rest) == [a] + SplitLines(rest)
  {
    var s := a + ['\n'] + rest;
    assert s == a + (['\n'] + rest);
    LineEndOfLine(a, ['\n'] + rest);
    assert LineEnd(['\n'] + rest) == 0;
    assert s[|a|] == '\n';
    assert s[..|a|] == a;
    assert s[|a| + 1..] == rest;
  }
}
